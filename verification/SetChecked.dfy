/** The checkbox protocol of `SetCheckedAction.execute` (agent/executor/actions.py).

    A click toggles the box and may take effect even when it reports an error, so
    it must never be repeated blindly. The environment is an adversary: it decides
    what every read returns, which clicks raise, when a stop is requested and how
    fast time passes. The method records every read and click it makes. */
module SetChecked {

  /** What one attempt to read the box gives: its state, something that is not a
      boolean, an error that may be retried, or any other exception. */
  datatype Reading = State(on: bool) | Unknown | Unreadable | Fatal

  datatype Event = Read(r: Reading) | Click(raised: bool)

  datatype Outcome = Passed(changed: bool) | Failed | Raised

  /** The environment's answer to the n-th question put to it. */
  datatype Environment = Environment(
    read: nat -> Reading, raises: nat -> bool, stop: nat -> bool, clock: nat -> real)

  const MAX_CLICKS := 3
  const RETRY_STABLE_READS := 2
  const MIN_CLICK_REMAINING := 0.1
  const MIN_RETRY_CLICK_REMAINING := 0.8

  /** A read that clearly shows the box away from the target. */
  function NonTarget(desired: bool): Event {
    Read(State(!desired))
  }

  /** The only shape a history of reads and clicks can have: a click stands at
      position 2, 6 or 10, the first after two non-target reads, each later one
      after a click that did not raise and three non-target reads since. */
  predicate Conforms(trace: seq<Event>, desired: bool) {
    forall j :: 0 <= j < |trace| && trace[j].Click? ==> WellPlaced(trace, j, desired)
  }

  predicate WellPlaced(trace: seq<Event>, j: nat, desired: bool)
    requires j < |trace|
  {
    && (j == 2 || j == 6 || j == 10)
    && trace[j - 1] == NonTarget(desired) && trace[j - 2] == NonTarget(desired)
    && (j > 2 ==> trace[j - 3] == NonTarget(desired) && trace[j - 4] == Click(false))
  }

  /** Only reads were added. */
  predicate ReadsAdded(before: seq<Event>, after: seq<Event>) {
    before <= after && forall j :: |before| <= j < |after| ==> after[j].Read?
  }

  predicate EndsAtTarget(trace: seq<Event>, desired: bool) {
    trace != [] && trace[|trace| - 1] == Read(State(desired))
  }

  predicate EndsFatally(trace: seq<Event>) {
    trace != [] && trace[|trace| - 1] == Read(Fatal)
  }

  /** The last question answered was a stop request, or the last read failed for good. */
  predicate Interrupted(env: Environment, trace: seq<Event>, t: nat) {
    EndsFatally(trace) || (t > 0 && env.stop(t - 1))
  }

  /** The state kept is the target exactly when the last thing done was to read it. */
  predicate Shows(trace: seq<Event>, final: Reading, desired: bool) {
    final == State(desired) <==> EndsAtTarget(trace, desired)
  }

  /** One look between clicks: no stop request, time left, and the box away from the target. */
  predicate LooksAway(env: Environment, desired: bool, t: nat, deadline: real) {
    !env.stop(t) && env.clock(t + 1) < deadline && env.read(t + 2) == State(!desired)
  }

  /** Both looks after a click find the box away from the target. */
  predicate StaysAway(env: Environment, desired: bool, t: nat, deadline: real) {
    !env.stop(t) && LooksAway(env, desired, t + 1, deadline) && !env.stop(t + 4) && LooksAway(env, desired, t + 5, deadline)
  }

  function Reserve(clicks: nat): real {
    if clicks > 0 then MIN_RETRY_CLICK_REMAINING else MIN_CLICK_REMAINING
  }

  /** A round clicks: enough time before and after a fresh read away from the target. */
  predicate MayClick(env: Environment, desired: bool, t: nat, deadline: real, clicks: nat) {
    && deadline - env.clock(t) >= Reserve(clicks) && env.read(t + 1) == State(!desired)
    && deadline - env.clock(t + 2) >= Reserve(clicks)
  }

  // ---------- the observation after a click ----------

  /** An exception ends a look that starts with question `t`: a stop request, or, with
      time left, a read that fails for good. */
  predicate LookBreaks(env: Environment, t: nat, deadline: real) {
    env.stop(t) || (env.clock(t + 1) < deadline && env.read(t + 2).Fatal?)
  }

  predicate SeesTarget(env: Environment, desired: bool, t: nat, deadline: real) {
    !env.stop(t) && env.clock(t + 1) < deadline && env.read(t + 2) == State(desired)
  }

  /** An exception ends the observation. */
  predicate ObserveBreaks(env: Environment, desired: bool, t: nat, deadline: real) {
    || env.stop(t) || LookBreaks(env, t + 1, deadline)
    || (LooksAway(env, desired, t + 1, deadline) && (env.stop(t + 4) || LookBreaks(env, t + 5, deadline)))
  }

  /** The last thing the observation sees is the target. */
  predicate ObserveSees(env: Environment, desired: bool, t: nat, deadline: real) {
    && !env.stop(t)
    && (SeesTarget(env, desired, t + 1, deadline)
        || (LooksAway(env, desired, t + 1, deadline) && !env.stop(t + 4) && SeesTarget(env, desired, t + 5, deadline)))
  }

  /** What one look reads, and the first question after it. */
  function LookReads(env: Environment, t: nat, deadline: real): seq<Event> {
    if env.stop(t) || env.clock(t + 1) >= deadline then [] else [Read(env.read(t + 2))]
  }

  function LookEnd(env: Environment, t: nat, deadline: real): nat {
    if env.stop(t) then t + 1 else if env.clock(t + 1) >= deadline then t + 2 else t + 3
  }

  function ObserveReads(env: Environment, desired: bool, t: nat, deadline: real): seq<Event> {
    if env.stop(t) then []
    else if !LooksAway(env, desired, t + 1, deadline) || env.stop(t + 4) then LookReads(env, t + 1, deadline)
    else [NonTarget(desired)] + LookReads(env, t + 5, deadline)
  }

  function ObserveEnd(env: Environment, desired: bool, t: nat, deadline: real): nat {
    if env.stop(t) then t + 1
    else if !LooksAway(env, desired, t + 1, deadline) then LookEnd(env, t + 1, deadline)
    else if env.stop(t + 4) then t + 5
    else LookEnd(env, t + 5, deadline)
  }

  /** `observe_after_click`: two stable non-target reads allow another click. */
  method Observe(env: Environment, desired: bool, t0: nat, deadline: real, before: seq<Event>, final0: Reading)
    returns (allowed: bool, raised: bool, t: nat, trace: seq<Event>, final: Reading)
    requires final0 == State(!desired)
    ensures raised <==> ObserveBreaks(env, desired, t0, deadline)
    ensures allowed && !raised <==> StaysAway(env, desired, t0, deadline)
    ensures final == State(desired) <==> ObserveSees(env, desired, t0, deadline)
    ensures allowed && !raised ==> final == State(!desired)
    ensures t == ObserveEnd(env, desired, t0, deadline) && trace == before + ObserveReads(env, desired, t0, deadline)
  {
    allowed, raised, t, trace, final := false, false, t0, before, final0;
    if env.stop(t) {
      return false, true, t + 1, trace, final;
    }
    t := t + 1;
    var stable := 0;
    while stable < RETRY_STABLE_READS
      invariant 0 <= stable <= RETRY_STABLE_READS && !env.stop(t0)
      invariant t == if stable == 0 then t0 + 1 else if stable == 1 then t0 + 5 else t0 + 8
      invariant stable >= 1 ==> LooksAway(env, desired, t0 + 1, deadline) && !env.stop(t0 + 4)
      invariant stable >= 2 ==> LooksAway(env, desired, t0 + 5, deadline)
      invariant trace == before + (if stable == 0 then [] else if stable == 1 then [NonTarget(desired)] else [NonTarget(desired), NonTarget(desired)])
      invariant final == State(!desired)
    {
      if env.stop(t) {
        return false, true, t + 1, trace, final;
      }
      if env.clock(t + 1) >= deadline {
        return false, false, t + 2, trace, final;
      }
      var r := env.read(t + 2);
      t := t + 3;
      trace := trace + [Read(r)];
      if r.Fatal? {
        return false, true, t, trace, final;
      }
      if r.Unreadable? {
        return false, false, t, trace, final;
      }
      final := r;
      if r.Unknown? || r.on == desired {
        return false, false, t, trace, final;
      }
      stable := stable + 1;
      if stable < RETRY_STABLE_READS {
        if env.stop(t) {
          return false, true, t + 1, trace, final;
        }
        t := t + 1;
      }
    }
    allowed := true;
  }

  /** Where the clicking loop stands before its next round: every earlier round
      sent a click that did not raise and saw the box away from the target twice. */
  predicate BetweenClicks(trace: seq<Event>, clicks: nat, desired: bool) {
    && clicks <= MAX_CLICKS && Conforms(trace, desired) && |trace| == 1 + 4 * clicks
    && trace[4 * clicks] == NonTarget(desired)
    && (clicks > 0 ==> trace[4 * clicks - 1] == NonTarget(desired) && trace[4 * clicks - 2] == Click(false))
  }

  lemma ClickConforms(before: seq<Event>, clicks: nat, desired: bool, raised: bool)
    requires BetweenClicks(before, clicks, desired) && clicks < MAX_CLICKS
    ensures Conforms(before + [NonTarget(desired), Click(raised)], desired)
  {
    var trace := before + [NonTarget(desired), Click(raised)];
    var last := 2 + 4 * clicks;
    assert trace[last - 1] == NonTarget(desired) && trace[last - 2] == before[4 * clicks];
    if clicks > 0 {
      assert trace[last - 3] == before[4 * clicks - 1] && trace[last - 4] == before[4 * clicks - 2];
    }
    assert forall j :: 0 <= j < |before| ==> trace[j] == before[j];
    forall j | 0 <= j < |trace| && trace[j].Click?
      ensures WellPlaced(trace, j, desired)
    {
      assert j == last || (j < |before| && before[j].Click? && WellPlaced(before, j, desired));
    }
  }

  /** Two looks away from the target complete a round. */
  lemma RoundComplete(before: seq<Event>, clicks: nat, desired: bool, after: seq<Event>)
    requires BetweenClicks(before, clicks, desired) && clicks < MAX_CLICKS && Conforms(after, desired)
    requires after == before + [NonTarget(desired), Click(false)] + [NonTarget(desired), NonTarget(desired)]
    ensures BetweenClicks(after, clicks + 1, desired)
  {
  }

  /** Reads added to a history keep its shape. */
  lemma ReadsKeepShape(before: seq<Event>, after: seq<Event>, desired: bool)
    requires ReadsAdded(before, after) && Conforms(before, desired)
    ensures Conforms(after, desired)
    ensures NoClick(before) ==> NoClick(after)
  {
    assert forall j :: 0 <= j < |before| ==> after[j] == before[j];
    forall j | 0 <= j < |after| && after[j].Click?
      ensures WellPlaced(after, j, desired)
    {
      assert before[j].Click? && WellPlaced(before, j, desired);
    }
  }

  /** Each event of the history is what the environment answered to a question, asked
      one after the other and before question `t`. */
  ghost predicate Answered(env: Environment, trace: seq<Event>, t: nat) {
    exists at :: AnsweredAs(env, trace, at, t)
  }

  predicate AnsweredAs(env: Environment, trace: seq<Event>, at: seq<nat>, t: nat) {
    |at| == |trace| &&
    forall j :: 0 <= j < |at| ==> at[j] < t && AnsweredAt(env, trace[j], at[j]) && (j > 0 ==> at[j - 1] < at[j])
  }

  predicate AnsweredAt(env: Environment, e: Event, q: nat) {
    match e
    case Read(r) => r == env.read(q)
    case Click(raised) => raised == env.raises(q)
  }

  lemma AnswerMore(env: Environment, trace: seq<Event>, e: Event, q: nat, t: nat)
    requires Answered(env, trace, q) && AnsweredAt(env, e, q) && q < t
    ensures Answered(env, trace + [e], t)
  {
    var at :| AnsweredAs(env, trace, at, q);
    assert AnsweredAs(env, trace + [e], at + [q], t);
  }

  lemma AnsweredBy(env: Environment, trace: seq<Event>, t: nat, u: nat)
    requires Answered(env, trace, t) && t <= u
    ensures Answered(env, trace, u)
  {
    var at :| AnsweredAs(env, trace, at, t);
    assert AnsweredAs(env, trace, at, u);
  }

  lemma NothingAnswered(env: Environment, t: nat)
    ensures Answered(env, [], t)
  {
    assert AnsweredAs(env, [], [], t);
  }

  lemma LookAnswered(env: Environment, trace: seq<Event>, t: nat, deadline: real)
    requires Answered(env, trace, t)
    ensures Answered(env, trace + LookReads(env, t, deadline), LookEnd(env, t, deadline))
  {
    if env.stop(t) || env.clock(t + 1) >= deadline {
      assert trace + LookReads(env, t, deadline) == trace;
      AnsweredBy(env, trace, t, LookEnd(env, t, deadline));
    } else {
      AnsweredBy(env, trace, t, t + 2);
      AnswerMore(env, trace, Read(env.read(t + 2)), t + 2, t + 3);
    }
  }

  // ---------- one round of the clicking loop ----------

  /** Enough time is left at question `t` for the next click. */
  predicate Enough(env: Environment, t: nat, deadline: real, clicks: nat) {
    deadline - env.clock(t) >= Reserve(clicks)
  }

  /** Without a click, a round that runs out of time is a failure. */
  predicate GivesUp(env: Environment, desired: bool, t: nat, deadline: real, clicks: nat) {
    clicks == 0 && (!Enough(env, t, deadline, clicks)
                    || (env.read(t + 1) == State(!desired) && !Enough(env, t + 2, deadline, clicks)))
  }

  /** The click is sent and does not raise, so that its effect is observed. */
  predicate Observes(env: Environment, desired: bool, t: nat, deadline: real, clicks: nat) {
    MayClick(env, desired, t, deadline, clicks) && !env.raises(t + 3)
  }

  /** An exception ends the round that starts with question `t`. */
  predicate RoundBreaks(env: Environment, desired: bool, t: nat, deadline: real, clicks: nat) {
    || (Enough(env, t, deadline, clicks) && env.read(t + 1).Fatal?)
    || (Observes(env, desired, t, deadline, clicks) && ObserveBreaks(env, desired, t + 4, deadline))
  }

  /** The last thing the round sees is the target. */
  predicate RoundSees(env: Environment, desired: bool, t: nat, deadline: real, clicks: nat) {
    || (Enough(env, t, deadline, clicks) && env.read(t + 1) == State(desired))
    || (Observes(env, desired, t, deadline, clicks) && ObserveSees(env, desired, t + 4, deadline))
  }

  /** Another round follows. */
  predicate RoundGoesOn(env: Environment, desired: bool, t: nat, deadline: real, clicks: nat) {
    Observes(env, desired, t, deadline, clicks) && StaysAway(env, desired, t + 4, deadline) && clicks + 1 < MAX_CLICKS
  }

  /** What the round adds to the history before its click, after it, and the first
      question after the round. */
  function PreReads(env: Environment, t: nat, deadline: real, clicks: nat): seq<Event> {
    if Enough(env, t, deadline, clicks) then [Read(env.read(t + 1))] else []
  }

  function ClickEvents(env: Environment, desired: bool, t: nat, deadline: real, clicks: nat): seq<Event> {
    if !MayClick(env, desired, t, deadline, clicks) then []
    else if env.raises(t + 3) then [Click(true)]
    else [Click(false)] + ObserveReads(env, desired, t + 4, deadline)
  }

  function RoundEnd(env: Environment, desired: bool, t: nat, deadline: real, clicks: nat): nat {
    if !Enough(env, t, deadline, clicks) then t + 1
    else if env.read(t + 1) != State(!desired) then t + 2
    else if !Enough(env, t + 2, deadline, clicks) then t + 3
    else if env.raises(t + 3) then t + 4
    else ObserveEnd(env, desired, t + 4, deadline)
  }

  /** The start of a round: a fresh read, with enough time before and after it. */
  method PreClick(env: Environment, desired: bool, t0: nat, deadline: real, before: seq<Event>, clicks: nat)
    returns (ready: bool, end: Outcome, t: nat, trace: seq<Event>, final: Reading)
    ensures ready <==> MayClick(env, desired, t0, deadline, clicks)
    ensures end.Raised? <==> Enough(env, t0, deadline, clicks) && env.read(t0 + 1).Fatal?
    ensures end.Failed? <==> GivesUp(env, desired, t0, deadline, clicks)
    ensures end.Passed? ==> end == Passed(false)
    ensures final == State(desired) <==> Enough(env, t0, deadline, clicks) && env.read(t0 + 1) == State(desired)
    ensures ready ==> final == State(!desired)
    ensures trace == before + PreReads(env, t0, deadline, clicks)
    ensures t == if ready then t0 + 2 else RoundEnd(env, desired, t0, deadline, clicks)
  {
    var reserve := Reserve(clicks);
    ready, end, t, trace, final := false, Passed(false), t0, before, State(!desired);
    if deadline - env.clock(t) < reserve {
      t := t + 1;
      end := if clicks == 0 then Failed else end;
      return;
    }
    var r := env.read(t + 1);
    t := t + 2;
    trace := trace + [Read(r)];
    if r.Fatal? {
      end := Raised;
      return;
    }
    if r.Unreadable? {
      return;
    }
    final := r;
    if r.Unknown? || r.on == desired {
      return;
    }
    if deadline - env.clock(t) < reserve {
      t := t + 1;
      end := if clicks == 0 then Failed else end;
      return;
    }
    ready := true;
  }

  /** How a round ends: with an exception, by giving up, or with what was last seen. */
  predicate RoundResult(env: Environment, desired: bool, t: nat, deadline: real, clicks0: nat,
                        end: Outcome, clicks: nat, final: Reading)
  {
    && (end.Raised? <==> RoundBreaks(env, desired, t, deadline, clicks0))
    && (end.Failed? <==> GivesUp(env, desired, t, deadline, clicks0))
    && (end.Passed? ==> end == Passed(false))
    && (final == State(desired) <==> RoundSees(env, desired, t, deadline, clicks0))
    && clicks == if MayClick(env, desired, t, deadline, clicks0) then clicks0 + 1 else clicks0
  }

  /** One round: a fresh read, then possibly a click and its observation. Returns
      whether the loop goes on, and the outcome if an exception ended everything. */
  method ClickRound(env: Environment, desired: bool, t0: nat, deadline: real, before: seq<Event>, clicks0: nat)
    returns (again: bool, end: Outcome, t: nat, trace: seq<Event>, clicks: nat, final: Reading)
    ensures again <==> RoundGoesOn(env, desired, t0, deadline, clicks0)
    ensures again ==> final == State(!desired)
    ensures clicks > clicks0 ==> env.clock(t0 + 2) + (if clicks0 > 0 then 0.8 else 0.1) <= deadline
    ensures RoundResult(env, desired, t0, deadline, clicks0, end, clicks, final)
    ensures trace == before + PreReads(env, t0, deadline, clicks0) + ClickEvents(env, desired, t0, deadline, clicks0)
    ensures t == RoundEnd(env, desired, t0, deadline, clicks0)
  {
    var ready;
    again, clicks := false, clicks0;
    ready, end, t, trace, final := PreClick(env, desired, t0, deadline, before, clicks);
    if !ready {
      return;
    }
    var raised := env.raises(t + 1);
    t := t + 2;
    clicks := clicks + 1;
    trace := trace + [Click(raised)];
    if raised {
      return;
    }
    var allowed, stopped;
    allowed, stopped, t, trace, final := Observe(env, desired, t, deadline, trace, final);
    if stopped {
      end := Raised;
      return;
    }
    again := allowed && clicks < MAX_CLICKS;
  }

  // ---------- what a round adds to the history ----------

  lemma ObserveAnswered(env: Environment, desired: bool, t: nat, deadline: real, before: seq<Event>)
    requires Answered(env, before, t)
    ensures Answered(env, before + ObserveReads(env, desired, t, deadline), ObserveEnd(env, desired, t, deadline))
  {
    if env.stop(t) {
      assert before + [] == before;
      AnsweredBy(env, before, t, t + 1);
    } else {
      AnsweredBy(env, before, t, t + 1);
      LookAnswered(env, before, t + 1, deadline);
      if LooksAway(env, desired, t + 1, deadline) {
        var first := before + [NonTarget(desired)];
        AnsweredBy(env, first, t + 4, t + 5);
        LookAnswered(env, first, t + 5, deadline);
        assert before + ([NonTarget(desired)] + LookReads(env, t + 5, deadline)) == first + LookReads(env, t + 5, deadline);
      }
    }
  }

  /** An observation adds at most two reads; the second shows how it ended. */
  lemma ObserveShape(env: Environment, desired: bool, t: nat, deadline: real)
    ensures var seen := ObserveReads(env, desired, t, deadline); var end := ObserveEnd(env, desired, t, deadline);
            && NoClick(seen) && |seen| <= 2 && t < end <= t + 4 * |seen| + 4
            && (ObserveBreaks(env, desired, t, deadline) ==> Interrupted(env, seen, end))
            && (!ObserveBreaks(env, desired, t, deadline) ==> !EndsFatally(seen))
            && (EndsAtTarget(seen, desired) <==> ObserveSees(env, desired, t, deadline))
            && (StaysAway(env, desired, t, deadline) ==> seen == [NonTarget(desired), NonTarget(desired)] && end == t + 8)
  {
  }

  /** The same for a whole round. */
  lemma RoundAnswered(env: Environment, desired: bool, t: nat, deadline: real, clicks: nat, before: seq<Event>)
    requires Answered(env, before, t)
    ensures Answered(env, before + PreReads(env, t, deadline, clicks) + ClickEvents(env, desired, t, deadline, clicks),
                     RoundEnd(env, desired, t, deadline, clicks))
  {
    var looked := before + PreReads(env, t, deadline, clicks);
    if !Enough(env, t, deadline, clicks) {
      assert looked == before;
      AnsweredBy(env, before, t, t + 1);
    } else {
      AnsweredBy(env, before, t, t + 1);
      AnswerMore(env, before, Read(env.read(t + 1)), t + 1, t + 2);
      AnsweredBy(env, looked, t + 2, t + 3);
    }
    if MayClick(env, desired, t, deadline, clicks) {
      var clicked := looked + [Click(env.raises(t + 3))];
      AnswerMore(env, looked, Click(env.raises(t + 3)), t + 3, t + 4);
      if !env.raises(t + 3) {
        ObserveAnswered(env, desired, t + 4, deadline, clicked);
        var seen := ObserveReads(env, desired, t + 4, deadline);
        assert looked + ([Click(false)] + seen) == clicked + seen;
      }
    } else {
      assert looked + [] == looked;
    }
  }

  lemma RoundConforms(env: Environment, desired: bool, t: nat, deadline: real, clicks: nat, before: seq<Event>)
    requires BetweenClicks(before, clicks, desired) && clicks < MAX_CLICKS
    ensures var after := before + PreReads(env, t, deadline, clicks) + ClickEvents(env, desired, t, deadline, clicks);
            && Conforms(after, desired)
            && (!MayClick(env, desired, t, deadline, clicks) ==> ReadsAdded(before, after))
            && (RoundGoesOn(env, desired, t, deadline, clicks) ==> BetweenClicks(after, clicks + 1, desired))
  {
    var looked, events := before + PreReads(env, t, deadline, clicks), ClickEvents(env, desired, t, deadline, clicks);
    ReadsKeepShape(before, looked, desired);
    if MayClick(env, desired, t, deadline, clicks) {
      var raised, clicked := env.raises(t + 3), looked + [events[0]];
      assert clicked == before + [NonTarget(desired), Click(raised)];
      ClickConforms(before, clicks, desired, raised);
      ObserveShape(env, desired, t + 4, deadline);
      assert looked + events == clicked + events[1..];
      ReadsKeepShape(clicked, looked + events, desired);
      if RoundGoesOn(env, desired, t, deadline, clicks) {
        RoundComplete(before, clicks, desired, looked + events);
      }
    } else {
      assert looked + events == looked;
    }
  }

  /** How a round ends can be seen from its last event. */
  lemma RoundShape(env: Environment, desired: bool, t: nat, deadline: real, clicks: nat, before: seq<Event>)
    requires !EndsAtTarget(before, desired) && !EndsFatally(before)
    ensures var after := before + PreReads(env, t, deadline, clicks) + ClickEvents(env, desired, t, deadline, clicks);
            var end := RoundEnd(env, desired, t, deadline, clicks);
            && before <= after && t <= end <= t + 4 * (|after| - |before|) + 1
            && (if RoundBreaks(env, desired, t, deadline, clicks) then Interrupted(env, after, end) else !EndsFatally(after))
            && (EndsAtTarget(after, desired) <==> RoundSees(env, desired, t, deadline, clicks))
            && (RoundGoesOn(env, desired, t, deadline, clicks) ==> end == t + 12)
  {
    if Observes(env, desired, t, deadline, clicks) {
      ObserveShape(env, desired, t + 4, deadline);
    }
  }

  // ---------- the final confirmation ----------

  /** A look of the confirmation that neither an exception, the target nor the time ends. */
  predicate LooksOn(env: Environment, desired: bool, t: nat, deadline: real) {
    && !LookBreaks(env, t, deadline) && !SeesTarget(env, desired, t, deadline) && env.clock(t + 1) < deadline
    && (env.read(t + 2).Unreadable? ==> env.clock(t + 3) < deadline)
  }

  /** The confirmation that starts with question `t` reaches its look number `k`. */
  predicate Reaches(env: Environment, desired: bool, t: nat, deadline: real, k: nat) {
    forall j :: 0 <= j < k ==> LooksOn(env, desired, t + 4 * j, deadline)
  }

  /** An exception ends the confirmation. */
  ghost predicate ConfirmBreaks(env: Environment, desired: bool, t: nat, deadline: real) {
    exists k: nat :: Reaches(env, desired, t, deadline, k) && LookBreaks(env, t + 4 * k, deadline)
  }

  /** The confirmation reads the target in time. */
  ghost predicate ConfirmSees(env: Environment, desired: bool, t: nat, deadline: real) {
    exists k: nat :: Reaches(env, desired, t, deadline, k) && SeesTarget(env, desired, t + 4 * k, deadline)
  }

  /** The first look that does not go on decides. */
  lemma LastLookDecides(env: Environment, desired: bool, t: nat, deadline: real, k: nat)
    requires Reaches(env, desired, t, deadline, k) && !LooksOn(env, desired, t + 4 * k, deadline)
    ensures ConfirmBreaks(env, desired, t, deadline) <==> LookBreaks(env, t + 4 * k, deadline)
    ensures ConfirmSees(env, desired, t, deadline) <==> SeesTarget(env, desired, t + 4 * k, deadline)
  {
    forall m: nat | Reaches(env, desired, t, deadline, m)
      ensures m <= k && (m < k ==> LooksOn(env, desired, t + 4 * m, deadline))
    {
    }
  }

  lemma ReachesNext(env: Environment, desired: bool, t: nat, deadline: real, k: nat, before: seq<Event>)
    requires Reaches(env, desired, t, deadline, k) && LooksOn(env, desired, t + 4 * k, deadline)
    ensures Reaches(env, desired, t, deadline, k + 1)
    ensures before + ConfirmReads(env, t, k + 1) == before + ConfirmReads(env, t, k) + LookReads(env, t + 4 * k, deadline)
  {
  }

  /** How a look of the confirmation that starts with question `t0` ends. */
  predicate Looked(env: Environment, desired: bool, t0: nat, deadline: real, before: seq<Event>, final0: Reading,
                   again: bool, raised: bool, t: nat, trace: seq<Event>, final: Reading)
  {
    && (raised <==> LookBreaks(env, t0, deadline))
    && (again <==> LooksOn(env, desired, t0, deadline))
    && (final == State(desired) <==> SeesTarget(env, desired, t0, deadline)
                                     || (LookReads(env, t0, deadline) == [] && final0 == State(desired)))
    && trace == before + LookReads(env, t0, deadline)
    && (if again then t == t0 + 4 else t0 <= t <= t0 + 3)
    && (raised && env.stop(t0) ==> t == t0 + 1)
    && (!again && !raised ==> SeesTarget(env, desired, t0, deadline) || env.clock(t) >= deadline)
  }

  /** One look of the confirmation. */
  method ConfirmLook(env: Environment, desired: bool, t0: nat, deadline: real, before: seq<Event>, final0: Reading)
    returns (again: bool, raised: bool, t: nat, trace: seq<Event>, final: Reading)
    ensures Looked(env, desired, t0, deadline, before, final0, again, raised, t, trace, final)
  {
    again, raised, t, trace, final := false, false, t0, before, final0;
    if env.stop(t) {
      raised, t := true, t + 1;
      return;
    }
    if env.clock(t + 1) >= deadline {
      t := t + 1;
      return;
    }
    var r := env.read(t + 2);
    trace := trace + [Read(r)];
    if r.Fatal? {
      raised := true;
      final := Unknown;
      return;
    }
    final := r;
    if r.Unreadable? && env.clock(t + 3) >= deadline {
      t := t + 3;
      return;
    }
    if final == State(desired) {
      return;
    }
    again, t := true, t + 4;
  }

  /** What is known at the start of look `k`. */
  predicate AtLook(env: Environment, desired: bool, t0: nat, deadline: real, k: nat, before: seq<Event>, final0: Reading,
                   t: nat, trace: seq<Event>, final: Reading)
  {
    && Reaches(env, desired, t0, deadline, k) && t == t0 + 4 * k && trace == before + ConfirmReads(env, t0, k)
    && if k == 0 then final == final0 else final != State(desired)
  }

  lemma NextLook(env: Environment, desired: bool, t0: nat, deadline: real, k: nat, before: seq<Event>, final0: Reading,
                 u: nat, earlier: seq<Event>, f: Reading, raised: bool, t: nat, trace: seq<Event>, final: Reading)
    requires AtLook(env, desired, t0, deadline, k, before, final0, u, earlier, f)
    requires Looked(env, desired, u, deadline, earlier, f, true, raised, t, trace, final)
    ensures AtLook(env, desired, t0, deadline, k + 1, before, final0, t, trace, final)
    ensures env.clock(u + 1) < deadline
  {
    ReachesNext(env, desired, t0, deadline, k, before);
  }

  /** Looks until one does not go on; `k` is the number of that look, and what is
      known at its start comes with it. */
  method ConfirmLoop(env: Environment, desired: bool, t0: nat, deadline: real, horizon: nat, before: seq<Event>, final0: Reading)
    returns (raised: bool, t: nat, trace: seq<Event>, final: Reading,
             ghost k: nat, ghost u: nat, ghost earlier: seq<Event>, ghost f: Reading)
    requires forall k :: k >= horizon ==> env.clock(k) >= deadline
    ensures AtLook(env, desired, t0, deadline, k, before, final0, u, earlier, f)
    ensures Looked(env, desired, u, deadline, earlier, f, false, raised, t, trace, final)
  {
    k, u, earlier, f := 0, t0, before, final0;
    assert before + ConfirmReads(env, t0, 0) == before;
    var again;
    again, raised, t, trace, final := ConfirmLook(env, desired, t0, deadline, before, final0);
    while again
      invariant AtLook(env, desired, t0, deadline, k, before, final0, u, earlier, f)
      invariant Looked(env, desired, u, deadline, earlier, f, again, raised, t, trace, final)
      decreases horizon - u
    {
      NextLook(env, desired, t0, deadline, k, before, final0, u, earlier, f, raised, t, trace, final);
      k, u, earlier, f := k + 1, t, trace, final;
      again, raised, t, trace, final := ConfirmLook(env, desired, t, deadline, trace, final);
    }
  }

  /** The final confirmation: read until the target shows or the deadline passes;
      without an exception `t` is the last question asked. It raises exactly if, at
      a look it reaches, a stop is requested or a read in time fails for good. */
  method Confirm(env: Environment, desired: bool, t0: nat, deadline: real, horizon: nat, before: seq<Event>, final0: Reading)
    returns (raised: bool, t: nat, trace: seq<Event>, final: Reading)
    requires forall k :: k >= horizon ==> env.clock(k) >= deadline
    requires Shows(before, final0, desired) && !EndsFatally(before) && Answered(env, before, t0)
    ensures raised <==> ConfirmBreaks(env, desired, t0, deadline)
    ensures !raised ==> (final == State(desired) <==>
              ConfirmSees(env, desired, t0, deadline) || (final0 == State(desired) && env.clock(t0 + 1) >= deadline))
    ensures if raised then Interrupted(env, trace, t) else !EndsFatally(trace)
    ensures ReadsAdded(before, trace) && Shows(trace, final, desired) && Answered(env, trace, t + 3)
    ensures t0 <= t <= t0 + 4 * (|trace| - |before|) + 3
    ensures !raised ==> EndsAtTarget(trace, desired) || env.clock(t) >= deadline
  {
    ghost var k, u, earlier, f;
    raised, t, trace, final, k, u, earlier, f := ConfirmLoop(env, desired, t0, deadline, horizon, before, final0);
    ConfirmDecides(env, desired, t0, deadline, k, before, final0, u, earlier, f, raised, t, trace, final);
    ConfirmShape(env, desired, t0, deadline, k, before, final0, u, earlier, f, raised, t, trace, final);
  }

  lemma ConfirmDecides(env: Environment, desired: bool, t0: nat, deadline: real, k: nat, before: seq<Event>, final0: Reading,
                       u: nat, earlier: seq<Event>, f: Reading, raised: bool, t: nat, trace: seq<Event>, final: Reading)
    requires AtLook(env, desired, t0, deadline, k, before, final0, u, earlier, f)
    requires Looked(env, desired, u, deadline, earlier, f, false, raised, t, trace, final)
    ensures raised <==> ConfirmBreaks(env, desired, t0, deadline)
    ensures !raised ==> (final == State(desired) <==>
              ConfirmSees(env, desired, t0, deadline) || (final0 == State(desired) && env.clock(t0 + 1) >= deadline))
  {
    LastLookDecides(env, desired, t0, deadline, k);
    if k > 0 {
      assert LooksOn(env, desired, t0 + 4 * 0, deadline);
    }
  }

  lemma ConfirmShape(env: Environment, desired: bool, t0: nat, deadline: real, k: nat, before: seq<Event>, final0: Reading,
                     u: nat, earlier: seq<Event>, f: Reading, raised: bool, t: nat, trace: seq<Event>, final: Reading)
    requires Shows(before, final0, desired) && !EndsFatally(before) && Answered(env, before, t0)
    requires AtLook(env, desired, t0, deadline, k, before, final0, u, earlier, f)
    requires Looked(env, desired, u, deadline, earlier, f, false, raised, t, trace, final)
    ensures if raised then Interrupted(env, trace, t) else !EndsFatally(trace)
    ensures ReadsAdded(before, trace) && Shows(trace, final, desired) && Answered(env, trace, t + 3)
    ensures t0 <= t <= t0 + 4 * (|trace| - |before|) + 3
    ensures !raised ==> EndsAtTarget(trace, desired) || env.clock(t) >= deadline
  {
    ConfirmHistory(env, t0, deadline, k, before);
    EarlierLooks(env, desired, t0, deadline, k, before);
    LastLook(env, desired, u, deadline, earlier);
    AnsweredBy(env, trace, u + 3, t + 3);
  }

  /** The reads of `n` looks. */
  function ConfirmReads(env: Environment, t: nat, n: nat): seq<Event> {
    if n == 0 then [] else ConfirmReads(env, t, n - 1) + [Read(env.read(t + 4 * (n - 1) + 2))]
  }

  lemma {:induction false} ConfirmAnswered(env: Environment, t: nat, n: nat, before: seq<Event>)
    requires Answered(env, before, t)
    ensures Answered(env, before + ConfirmReads(env, t, n), t + 4 * n)
    ensures ReadsAdded(before, before + ConfirmReads(env, t, n)) && |ConfirmReads(env, t, n)| == n
  {
    if n == 0 {
      assert before + [] == before;
    } else {
      var q, earlier := t + 4 * (n - 1) + 2, before + ConfirmReads(env, t, n - 1);
      ConfirmAnswered(env, t, n - 1, before);
      AnsweredBy(env, earlier, t + 4 * (n - 1), q);
      AnswerMore(env, earlier, Read(env.read(q)), q, t + 4 * n);
      assert before + ConfirmReads(env, t, n) == earlier + [Read(env.read(q))];
    }
  }

  lemma ConfirmHistory(env: Environment, t: nat, deadline: real, k: nat, before: seq<Event>)
    requires Answered(env, before, t)
    ensures var u := t + 4 * k; var trace := before + ConfirmReads(env, t, k) + LookReads(env, u, deadline);
            ReadsAdded(before, trace) && Answered(env, trace, u + 3) && |trace| >= |before| + k
  {
    var u, earlier := t + 4 * k, before + ConfirmReads(env, t, k);
    ConfirmAnswered(env, t, k, before);
    LookAnswered(env, earlier, u, deadline);
    AnsweredBy(env, earlier + LookReads(env, u, deadline), LookEnd(env, u, deadline), u + 3);
  }

  /** The reads before the last look neither show the target nor fail for good. */
  lemma {:induction false} EarlierLooks(env: Environment, desired: bool, t: nat, deadline: real, k: nat, before: seq<Event>)
    requires Reaches(env, desired, t, deadline, k) && !EndsFatally(before)
    ensures var earlier := before + ConfirmReads(env, t, k);
            !EndsFatally(earlier) && (EndsAtTarget(earlier, desired) <==> k == 0 && EndsAtTarget(before, desired))
  {
    if k == 0 {
      assert before + ConfirmReads(env, t, k) == before;
    } else {
      assert LooksOn(env, desired, t + 4 * (k - 1), deadline);
    }
  }

  lemma LastLook(env: Environment, desired: bool, t: nat, deadline: real, earlier: seq<Event>)
    requires !EndsFatally(earlier)
    ensures var trace := earlier + LookReads(env, t, deadline);
            && (EndsAtTarget(trace, desired) <==> SeesTarget(env, desired, t, deadline)
                                                  || (LookReads(env, t, deadline) == [] && EndsAtTarget(earlier, desired)))
            && (EndsFatally(trace) <==> LookBreaks(env, t, deadline) && !env.stop(t))
  {
    if LookReads(env, t, deadline) == [] {
      assert earlier + LookReads(env, t, deadline) == earlier;
    }
  }

  // ---------- the action ----------

  /** The first question of round `c`, if all rounds before it go on. */
  function RoundStart(c: nat): nat {
    2 + 12 * c
  }

  predicate GoesOn(env: Environment, desired: bool, deadline: real, c: nat) {
    RoundGoesOn(env, desired, RoundStart(c), deadline, c)
  }

  /** The first round that no other follows. */
  function LastRound(env: Environment, desired: bool, deadline: real): (c: nat)
    ensures c < MAX_CLICKS && !GoesOn(env, desired, deadline, c) && forall d :: 0 <= d < c ==> GoesOn(env, desired, deadline, d)
  {
    if !GoesOn(env, desired, deadline, 0) then 0 else if !GoesOn(env, desired, deadline, 1) then 1 else 2
  }

  /** An exception ends the last round or, if that does not fail, the confirmation after it. */
  ghost predicate Breaks(env: Environment, desired: bool, deadline: real) {
    var c := LastRound(env, desired, deadline);
    var t := RoundStart(c);
    || RoundBreaks(env, desired, t, deadline, c)
    || (!GivesUp(env, desired, t, deadline, c) && ConfirmBreaks(env, desired, RoundEnd(env, desired, t, deadline, c), deadline))
  }

  /** The target is seen: by the confirmation, or by the last round when no time is left. */
  ghost predicate Succeeds(env: Environment, desired: bool, deadline: real) {
    var c := LastRound(env, desired, deadline);
    var t := RoundStart(c);
    var u := RoundEnd(env, desired, t, deadline, c);
    && !Breaks(env, desired, deadline) && !GivesUp(env, desired, t, deadline, c)
    && (ConfirmSees(env, desired, u, deadline) || (RoundSees(env, desired, t, deadline, c) && env.clock(u + 1) >= deadline))
  }

  /** Where the rounds end: what came of the last one, and a history of the right shape. */
  ghost predicate RoundsDone(env: Environment, desired: bool, deadline: real, c: nat,
                             end: Outcome, t: nat, trace: seq<Event>, clicks: nat, final: Reading)
  {
    && RoundResult(env, desired, RoundStart(c), deadline, c, end, clicks, final)
    && t == RoundEnd(env, desired, RoundStart(c), deadline, c)
    && HistoryDone(env, desired, end, t, trace, clicks, final)
  }

  ghost predicate HistoryDone(env: Environment, desired: bool, end: Outcome, t: nat, trace: seq<Event>, clicks: nat, final: Reading) {
    && Conforms(trace, desired) && Shows(trace, final, desired) && (clicks == 0 ==> NoClick(trace))
    && t <= 4 * |trace| + 2 && Answered(env, trace, t) && trace != [] && trace[0] == Read(env.read(1))
    && if end.Raised? then Interrupted(env, trace, t) else !EndsFatally(trace)
  }

  /** What is known before round `c`. */
  ghost predicate BeforeRound(env: Environment, desired: bool, deadline: real, c: nat, trace: seq<Event>) {
    && BetweenClicks(trace, c, desired) && Answered(env, trace, RoundStart(c)) && trace[0] == Read(env.read(1))
    && forall d :: 0 <= d < c ==> GoesOn(env, desired, deadline, d)
  }

  function AfterRound(env: Environment, desired: bool, deadline: real, c: nat, trace: seq<Event>): seq<Event> {
    trace + PreReads(env, RoundStart(c), deadline, c) + ClickEvents(env, desired, RoundStart(c), deadline, c)
  }

  lemma NextRound(env: Environment, desired: bool, deadline: real, c: nat, trace: seq<Event>)
    requires c < MAX_CLICKS && BeforeRound(env, desired, deadline, c, trace) && GoesOn(env, desired, deadline, c)
    ensures BeforeRound(env, desired, deadline, c + 1, AfterRound(env, desired, deadline, c, trace))
    ensures RoundEnd(env, desired, RoundStart(c), deadline, c) == RoundStart(c + 1)
  {
    RoundAnswered(env, desired, RoundStart(c), deadline, c, trace);
    RoundConforms(env, desired, RoundStart(c), deadline, c, trace);
    RoundShape(env, desired, RoundStart(c), deadline, c, trace);
  }

  lemma LastRoundDone(env: Environment, desired: bool, deadline: real, c: nat, trace: seq<Event>, end: Outcome, clicks: nat, final: Reading)
    requires c < MAX_CLICKS && BeforeRound(env, desired, deadline, c, trace)
    requires RoundResult(env, desired, RoundStart(c), deadline, c, end, clicks, final)
    ensures HistoryDone(env, desired, end, RoundEnd(env, desired, RoundStart(c), deadline, c),
                        AfterRound(env, desired, deadline, c, trace), clicks, final)
  {
    RoundAnswered(env, desired, RoundStart(c), deadline, c, trace);
    RoundConforms(env, desired, RoundStart(c), deadline, c, trace);
    RoundShape(env, desired, RoundStart(c), deadline, c, trace);
    if clicks == 0 {
      ReadsKeepShape(trace, AfterRound(env, desired, deadline, c, trace), desired);
    }
  }

  /** The first round decides whether anything is clicked at all. */
  lemma ClicksAtAll(env: Environment, desired: bool, deadline: real, clicks: nat)
    requires var c := LastRound(env, desired, deadline);
             clicks == if MayClick(env, desired, RoundStart(c), deadline, c) then c + 1 else c
    ensures clicks > 0 <==> MayClick(env, desired, 2, deadline, 0)
  {
    var c := LastRound(env, desired, deadline);
    if c > 0 {
      assert GoesOn(env, desired, deadline, 0);
    }
  }

  /** The clicking loop. */
  method ClickLoop(env: Environment, desired: bool, deadline: real)
    returns (end: Outcome, t: nat, trace: seq<Event>, clicks: nat, final: Reading)
    requires env.read(1) == State(!desired)
    ensures RoundsDone(env, desired, deadline, LastRound(env, desired, deadline), end, t, trace, clicks, final)
  {
    t, trace, clicks := 2, [Read(env.read(1))], 0;
    NothingAnswered(env, 1);
    AnswerMore(env, [], trace[0], 1, 2);
    assert [] + trace == trace;
    var again := true;
    end, final := Passed(false), State(!desired);
    ghost var c := 0;
    while again
      invariant c < MAX_CLICKS && (!again ==> c == LastRound(env, desired, deadline))
      invariant if again then clicks == c && t == RoundStart(c) && BeforeRound(env, desired, deadline, c, trace)
                else RoundsDone(env, desired, deadline, c, end, t, trace, clicks, final)
      decreases again, MAX_CLICKS - c
    {
      ghost var before := trace;
      again, end, t, trace, clicks, final := ClickRound(env, desired, t, deadline, trace, clicks);
      if again {
        NextRound(env, desired, deadline, c, before);
        c := c + 1;
      } else {
        LastRoundDone(env, desired, deadline, c, before, end, clicks, final);
      }
    }
  }

  /** What the last round leaves decides, or leaves it to the confirmation. */
  lemma LastRoundDecides(env: Environment, desired: bool, deadline: real, end: Outcome, t: nat, trace: seq<Event>, clicks: nat, final: Reading)
    requires RoundsDone(env, desired, deadline, LastRound(env, desired, deadline), end, t, trace, clicks, final)
    ensures !end.Passed? ==> !Succeeds(env, desired, deadline) && (Breaks(env, desired, deadline) <==> end.Raised?)
    ensures end.Passed? ==>
              (Breaks(env, desired, deadline) <==> ConfirmBreaks(env, desired, t, deadline))
              && (Succeeds(env, desired, deadline) <==>
                    !ConfirmBreaks(env, desired, t, deadline)
                    && (ConfirmSees(env, desired, t, deadline) || (final == State(desired) && env.clock(t + 1) >= deadline)))
  {
  }

  /** Question `q` is one of the stop questions of the observation that starts with `t`. */
  predicate ObserveAsks(env: Environment, desired: bool, t: nat, deadline: real, q: nat) {
    || q == t || (q == t + 1 && !env.stop(t))
    || (q == t + 4 && !env.stop(t) && LooksAway(env, desired, t + 1, deadline))
    || (q == t + 5 && !env.stop(t) && LooksAway(env, desired, t + 1, deadline) && !env.stop(t + 4))
  }

  /** Question `q` asks for a stop in the observation after the click of round `c`. */
  predicate RoundAsks(env: Environment, desired: bool, deadline: real, c: nat, q: nat) {
    && c <= LastRound(env, desired, deadline) && Observes(env, desired, RoundStart(c), deadline, c)
    && ObserveAsks(env, desired, RoundStart(c) + 4, deadline, q)
  }

  /** The confirmation takes place, and question `q` asks for a stop at its look number `k`. */
  predicate ConfirmAsks(env: Environment, desired: bool, deadline: real, k: nat, q: nat) {
    var c := LastRound(env, desired, deadline);
    var t := RoundStart(c);
    var u := RoundEnd(env, desired, t, deadline, c);
    && !RoundBreaks(env, desired, t, deadline, c) && !GivesUp(env, desired, t, deadline, c)
    && Reaches(env, desired, u, deadline, k) && q == u + 4 * k
  }

  lemma ObserveHeeds(env: Environment, desired: bool, t: nat, deadline: real, q: nat)
    requires ObserveAsks(env, desired, t, deadline, q) && env.stop(q)
    ensures ObserveBreaks(env, desired, t, deadline) && !StaysAway(env, desired, t, deadline)
  {
  }

  lemma HeededInRound(env: Environment, desired: bool, deadline: real, c: nat, q: nat)
    requires RoundAsks(env, desired, deadline, c, q) && env.stop(q)
    ensures Breaks(env, desired, deadline)
  {
    ObserveHeeds(env, desired, RoundStart(c) + 4, deadline, q);
    assert c < LastRound(env, desired, deadline) ==> GoesOn(env, desired, deadline, c);
  }

  lemma HeededInConfirm(env: Environment, desired: bool, deadline: real, k: nat, q: nat)
    requires ConfirmAsks(env, desired, deadline, k, q) && env.stop(q)
    ensures Breaks(env, desired, deadline)
  {
    assert LookBreaks(env, q, deadline);
  }

  /** A stop request is heeded wherever it is met. */
  lemma StopIsHeeded(env: Environment, desired: bool, deadline: real, n: nat, q: nat)
    requires RoundAsks(env, desired, deadline, n, q) || ConfirmAsks(env, desired, deadline, n, q)
    requires env.stop(q)
    ensures Breaks(env, desired, deadline)
  {
    if RoundAsks(env, desired, deadline, n, q) {
      HeededInRound(env, desired, deadline, n, q);
    } else {
      HeededInConfirm(env, desired, deadline, n, q);
    }
  }

  /** The history that goes with an outcome. */
  ghost predicate Settled(env: Environment, desired: bool, o: Outcome, t: nat, trace: seq<Event>, clicks: nat) {
    && Conforms(trace, desired) && (!o.Raised? ==> (o.Passed? <==> EndsAtTarget(trace, desired)))
    && (if o.Raised? then Interrupted(env, trace, t) else !EndsFatally(trace))
    && trace != [] && trace[0] == Read(env.read(1)) && Answered(env, trace, t + 3)
    && t <= 4 * |trace| + 5 && (clicks == 0 ==> NoClick(trace))
  }

  lemma SettledByRounds(env: Environment, desired: bool, deadline: real, c: nat, end: Outcome, t: nat, trace: seq<Event>, clicks: nat, final: Reading)
    requires RoundsDone(env, desired, deadline, c, end, t, trace, clicks, final) && !end.Passed?
    ensures Settled(env, desired, end, t, trace, clicks) && (end.Failed? ==> clicks == 0)
  {
    AnsweredBy(env, trace, t, t + 3);
  }

  lemma SettledByConfirm(env: Environment, desired: bool, end: Outcome, t0: nat, before: seq<Event>, clicks: nat, final0: Reading,
                         o: Outcome, t: nat, trace: seq<Event>, final: Reading)
    requires HistoryDone(env, desired, end, t0, before, clicks, final0)
    requires ReadsAdded(before, trace) && Shows(trace, final, desired) && Answered(env, trace, t + 3)
    requires t <= t0 + 4 * (|trace| - |before|) + 3
    requires if o.Raised? then Interrupted(env, trace, t) else !EndsFatally(trace)
    requires !o.Raised? ==> (o.Passed? <==> final == State(desired))
    ensures Settled(env, desired, o, t, trace, clicks)
  {
    ReadsKeepShape(before, trace, desired);
  }

  /** The clicks and the confirmation, for a box first seen away from the target. */
  method Settle(env: Environment, desired: bool, deadline: real, horizon: nat)
    returns (o: Outcome, trace: seq<Event>, clicks: nat, t: nat)
    requires env.read(1) == State(!desired) && forall k :: k >= horizon ==> env.clock(k) >= deadline
    ensures o.Raised? <==> Breaks(env, desired, deadline)
    ensures o.Passed? <==> Succeeds(env, desired, deadline)
    ensures clicks > 0 <==> MayClick(env, desired, 2, deadline, 0)
    ensures o.Passed? ==> o.changed == (clicks > 0)
    ensures o.Failed? && clicks > 0 ==> env.clock(t) >= deadline
    ensures Settled(env, desired, o, t, trace, clicks)
  {
    var end, final;
    end, t, trace, clicks, final := ClickLoop(env, desired, deadline);
    ClicksAtAll(env, desired, deadline, clicks);
    LastRoundDecides(env, desired, deadline, end, t, trace, clicks, final);
    if !end.Passed? {
      SettledByRounds(env, desired, deadline, LastRound(env, desired, deadline), end, t, trace, clicks, final);
      return end, trace, clicks, t;
    }
    ghost var t0, before, final0 := t, trace, final;
    var raised;
    raised, t, trace, final := Confirm(env, desired, t, deadline, horizon, trace, final);
    o := if raised then Raised else if final == State(desired) then Passed(clicks > 0) else Failed;
    SettledByConfirm(env, desired, end, t0, before, clicks, final0, o, t, trace, final);
  }

  /** `SetCheckedAction.execute`. In every environment whose clock reaches the
      deadline: at most three clicks, none after a click that raised, each retry
      only after two stable and one fresh read away from the target since the
      last click; success exactly if the last read shows the target, an exception
      exactly after a stop request or a failed read, failure after a click only once
      the time is up, and a first click exactly if two reads show the box away from
      the target with time left. */
  method Execute(env: Environment, desired: bool, timeout: real, horizon: nat)
    returns (o: Outcome, trace: seq<Event>, clicks: nat, t: nat)
    requires forall k :: k >= horizon ==> env.clock(k) >= env.clock(0) + timeout
    ensures Conforms(trace, desired)
    ensures !o.Raised? ==> (o.Passed? <==> EndsAtTarget(trace, desired))
    ensures trace != [] && trace[0] == Read(env.read(1))
    ensures Answered(env, trace, t + 3)
    ensures if o.Raised? then Interrupted(env, trace, t) || trace == [Read(Unreadable)]
            else !EndsFatally(trace) && !env.read(1).Unreadable?
    ensures match env.read(1)
            case Fatal => o == Raised
            case Unreadable => o == Raised
            case Unknown => o == Failed
            case State(on) =>
              if on == desired then o == Passed(false)
              else (o.Raised? <==> Breaks(env, desired, env.clock(0) + timeout))
                   && (o.Passed? <==> Succeeds(env, desired, env.clock(0) + timeout))
    ensures o.Passed? ==> o.changed == (clicks > 0)
    ensures t <= 4 * |trace| + 5
    ensures o.Failed? && clicks > 0 ==> env.clock(t) >= env.clock(0) + timeout
    ensures clicks > 0 <==> env.read(1) == State(!desired) && MayClick(env, desired, 2, env.clock(0) + timeout, 0)
    ensures clicks == 0 ==> NoClick(trace)
  {
    var deadline := env.clock(0) + timeout;
    var initial := env.read(1);
    t := 2;
    trace, clicks := [Read(initial)], 0;
    NothingAnswered(env, 1);
    AnswerMore(env, [], Read(initial), 1, 2);
    assert [] + trace == trace;
    AnsweredBy(env, trace, 2, 5);
    if initial.Fatal? || initial.Unreadable? {
      return Raised, trace, 0, t;
    }
    if initial.Unknown? {
      return Failed, trace, 0, t;
    }
    if initial.on == desired {
      return Passed(false), trace, 0, t;
    }
    o, trace, clicks, t := Settle(env, desired, deadline, horizon);
  }

  predicate NoClick(trace: seq<Event>) {
    forall j :: 0 <= j < |trace| ==> trace[j].Read?
  }

  // ---------- what the shape of the history means ----------

  function Clicks(trace: seq<Event>): nat {
    if trace == [] then 0
    else Clicks(trace[..|trace| - 1]) + (if trace[|trace| - 1].Click? then 1 else 0)
  }

  lemma {:induction false} ClicksAreReads(trace: seq<Event>, desired: bool)
    requires Conforms(trace, desired)
    ensures Clicks(trace) <= (if |trace| <= 2 then 0 else if |trace| <= 6 then 1 else if |trace| <= 10 then 2 else 3)
  {
    if trace != [] {
      var front := trace[..|trace| - 1];
      forall j | 0 <= j < |front| && front[j].Click?
        ensures WellPlaced(front, j, desired)
      {
        assert WellPlaced(trace, j, desired);
      }
      ClicksAreReads(front, desired);
      if trace[|trace| - 1].Click? {
        assert WellPlaced(trace, |trace| - 1, desired);
      }
    }
  }

  /** At most three clicks are ever sent. */
  lemma AtMostThreeClicks(trace: seq<Event>, desired: bool)
    requires Conforms(trace, desired)
    ensures Clicks(trace) <= MAX_CLICKS
  {
    ClicksAreReads(trace, desired);
  }

  /** After a click that raised nothing is clicked again. */
  lemma NoClickAfterRaised(trace: seq<Event>, desired: bool, i: nat, j: nat)
    requires Conforms(trace, desired) && i < j < |trace| && trace[i] == Click(true)
    ensures trace[j].Read?
  {
    if trace[j].Click? {
      assert false;
    }
  }

  /** Between two clicks there are exactly three reads, all away from the target. */
  lemma RetryIsGuarded(trace: seq<Event>, desired: bool, i: nat, j: nat)
    requires Conforms(trace, desired) && i < j < |trace| && trace[i].Click? && trace[j].Click?
    requires forall k :: i < k < j ==> trace[k].Read?
    ensures j == i + 4 && trace[i + 1..j] == [NonTarget(desired), NonTarget(desired), NonTarget(desired)]
  {
    assert WellPlaced(trace, i, desired) && WellPlaced(trace, j, desired);
  }

  // ---------- the box itself ----------

  /** What happens to the box: it is read, it is clicked (with an effect to come or
      without), or the effect of a click lands and toggles it. */
  datatype BoxEvent = Seen(r: Reading) | Clicked(raised: bool, effective: bool) | Lands

  function Observed(w: seq<BoxEvent>): seq<Event> {
    if w == [] then []
    else
      (match w[0] case Seen(r) => [Read(r)] case Clicked(raised, _) => [Click(raised)] case Lands => [])
      + Observed(w[1..])
  }

  /** The next thing observed is a click. */
  predicate ClickNext(w: seq<BoxEvent>) {
    w != [] && (w[0].Clicked? || (w[0].Lands? && ClickNext(w[1..])))
  }

  /** Reads show the box as it is, only landing effects change it, each click has
      at most one effect, and no effect is still to come at the read before the
      next click. */
  predicate Honest(w: seq<BoxEvent>, box: bool, pending: bool) {
    w == [] ||
    match w[0]
    case Seen(r) => (r.State? ==> r.on == box) && (ClickNext(w[1..]) ==> !pending) && Honest(w[1..], box, pending)
    case Clicked(_, effective) => Honest(w[1..], box, effective)
    case Lands => pending && Honest(w[1..], !box, false)
  }

  /** Every effect that lands moves the box to the target. */
  predicate NeverAway(w: seq<BoxEvent>, box: bool, desired: bool) {
    w == [] ||
    match w[0]
    case Lands => box != desired && NeverAway(w[1..], !box, desired)
    case _ => NeverAway(w[1..], box, desired)
  }

  /** Each click directly follows a read away from the target; `last` is what was
      observed before. */
  predicate Guarded(es: seq<Event>, last: Event, desired: bool) {
    es == [] || ((es[0].Click? ==> last == NonTarget(desired)) && Guarded(es[1..], es[0], desired))
  }

  lemma ObservedStep(w: seq<BoxEvent>)
    requires w != []
    ensures w[0].Lands? ==> Observed(w) == Observed(w[1..])
    ensures w[0].Seen? ==> Observed(w) == [Read(w[0].r)] + Observed(w[1..])
    ensures w[0].Clicked? ==> Observed(w) == [Click(w[0].raised)] + Observed(w[1..])
  {
    if w[0].Lands? {
      assert [] + Observed(w[1..]) == Observed(w[1..]);
    }
  }

  lemma {:induction false} GuardedNeverAway(w: seq<BoxEvent>, box: bool, pending: bool, last: Event, desired: bool)
    requires Honest(w, box, pending) && Guarded(Observed(w), last, desired)
    requires pending ==> box != desired
    requires ClickNext(w) && last == NonTarget(desired) ==> !pending && box != desired
    ensures NeverAway(w, box, desired)
  {
    if w != [] {
      ObservedStep(w);
      match w[0]
      case Seen(r) => GuardedNeverAway(w[1..], box, pending, Read(r), desired);
      case Clicked(raised, effective) => GuardedNeverAway(w[1..], box, effective, Click(raised), desired);
      case Lands => GuardedNeverAway(w[1..], !box, false, last, desired);
    }
  }

  lemma {:induction false} ConformsGuarded(trace: seq<Event>, i: nat, desired: bool)
    requires Conforms(trace, desired) && 0 < i <= |trace|
    ensures Guarded(trace[i..], trace[i - 1], desired)
    decreases |trace| - i
  {
    if i < |trace| {
      ConformsGuarded(trace, i + 1, desired);
      assert trace[i..][1..] == trace[i + 1..];
      if trace[i].Click? {
        assert WellPlaced(trace, i, desired);
      }
    }
  }

  lemma StartsWithRead(trace: seq<Event>, desired: bool)
    requires Conforms(trace, desired) && trace != []
    ensures trace[0].Read?
  {
    var first := trace[0];
    if first.Click? {
      assert false;
    }
  }

  /** If every effect of a click lands before the read that precedes the next one,
      and nothing else changes the box, the action never toggles it away from the target. */
  lemma NeverTogglesAway(w: seq<BoxEvent>, box: bool, desired: bool)
    requires Conforms(Observed(w), desired) && Honest(w, box, false)
    ensures NeverAway(w, box, desired)
  {
    var trace := Observed(w);
    if w != [] && w[0].Seen? {
      ObservedStep(w);
      ConformsGuarded(trace, 1, desired);
      GuardedNeverAway(w[1..], box, false, Read(w[0].r), desired);
    } else if w != [] {
      ObservedStep(w);
      StartsWithRead(trace, desired);
    }
  }
}
