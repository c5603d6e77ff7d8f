/** The slider controller: `_slider_snapshot`, `_move_slider` and
    `SetSliderValueAction.execute` (agent/executor/actions.py). Pixel positions are
    integers; slider values are exact real numbers. */
module Slider {
  import opened Common
  import opened Text

  datatype Box = Box(x: int, y: int, width: int, height: int)

  /** What one look finds: text without exactly one number, a thumb without its two
      parents, or the value, the thumb and the track. */
  datatype View = NoNumber | NoTrack | View(current: real, thumb: Box, track: Box)

  datatype Problem = TextNotNumber | TrackMissing | TrackInvalid | ThumbInvalid | ThumbOffTrack | ValueOutOfRange | Pinned

  datatype Drag = Drag(fromX: int, toX: int, y: int)

  /** What one round decides. */
  datatype Plan = Refuse(problem: Problem) | Stay(value: real) | Move(drag: Drag)

  datatype Goal = Goal(min: real, max: real, target: real, tolerance: real, adjustments: int)

  datatype Outcome = Rejected | Refused(problem: Problem) | Stopped | Failed(value: real)
                   | Passed(value: real, changed: bool, adjustments: nat)

  datatype Report = Report(outcome: Outcome, drags: seq<Drag>)

  /** The environment: what a look, a reading and a question about stopping give
      after the drags sent so far. */
  datatype Environment = Environment(view: seq<Drag> -> View, read: seq<Drag> -> Option<real>, stop: seq<Drag> -> bool)

  predicate Sensible(g: Goal) {
    g.min < g.max && g.min <= g.target <= g.max && g.tolerance >= 0.0 && 0 <= g.adjustments <= 10
  }

  predicate Hits(value: real, g: Goal) {
    Abs(value - g.target) <= g.tolerance
  }

  /** Python's `round`: to the nearest integer, ties to even. */
  function Round(a: real): (n: int)
    ensures Abs(n as real - a) <= 0.5
    ensures Abs(a) == 0.5 ==> n == 0
  {
    var f := a.Floor;
    var rest := a - f as real;
    if rest < 0.5 || (rest == 0.5 && f % 2 == 0) then f else f + 1
  }

  function CentreX(b: Box): int
    requires b.width > 0
  {
    b.x + (b.width - 1) / 2
  }

  function CentreY(b: Box): int
    requires b.height > 0
  {
    b.y + (b.height - 1) / 2
  }

  function Right(track: Box): int {
    track.x + track.width - 1
  }

  /** The checks of `_slider_snapshot`, in its order. */
  function Trouble(v: View, g: Goal): Option<Problem> {
    if v.NoNumber? then Some(TextNotNumber)
    else if v.NoTrack? then Some(TrackMissing)
    else if v.track.width <= 1 || v.track.height <= 0 then Some(TrackInvalid)
    else if v.thumb.width <= 0 || v.thumb.height <= 0 then Some(ThumbInvalid)
    else if !(v.track.x <= CentreX(v.thumb) <= Right(v.track)
              && v.track.y <= CentreY(v.thumb) <= v.track.y + v.track.height - 1) then Some(ThumbOffTrack)
    else if !(g.min <= v.current <= g.max) then Some(ValueOutOfRange)
    else None
  }

  /** How far to drag for a wanted shift of `delta` pixels: never nothing. */
  function Steps(delta: real): int {
    var n := Round(delta);
    if n != 0 then n else if delta > 0.0 then 1 else -1
  }

  function Clamp(x: int, low: int, high: int): int {
    var x := if x < high then x else high;
    if x > low then x else low
  }

  /** Every drag moves the thumb and stays on the track that was seen. */
  predicate OnTrack(d: Drag, v: View) {
    && v.View? && d.fromX != d.toX
    && v.track.x <= d.fromX <= Right(v.track) && v.track.x <= d.toX <= Right(v.track)
    && v.track.y <= d.y < v.track.y + v.track.height
  }

  /** The shift in pixels that would bring the shown value to the target. */
  function Shift(current: real, track: Box, g: Goal): real
    requires g.min < g.max
  {
    (Right(track) - track.x) as real * (g.target - current) / (g.max - g.min)
  }

  /** `_move_slider`. */
  function Decide(v: View, g: Goal): (p: Plan)
    requires Sensible(g)
    ensures p.Move? ==> OnTrack(p.drag, v)
    ensures p.Stay? ==> v.View? && p.value == v.current && Hits(p.value, g)
  {
    match Trouble(v, g)
    case Some(problem) => Refuse(problem)
    case None =>
      if Hits(v.current, g) then Stay(v.current)
      else
        var delta := Shift(v.current, v.track, g);
        var start := CentreX(v.thumb);
        var end := Clamp(start + Steps(delta), v.track.x, Right(v.track));
        if end == start then Refuse(Pinned) else Move(Drag(start, end, CentreY(v.thumb)))
  }

  /** The look shows a value of the range, and a thumb whose centre is on a real track. */
  predicate Sound(v: View, g: Goal) {
    && v.View? && g.min <= v.current <= g.max
    && v.track.width > 1 && v.track.height > 0 && v.thumb.width > 0 && v.thumb.height > 0
    && v.track.x <= CentreX(v.thumb) <= Right(v.track)
    && v.track.y <= CentreY(v.thumb) < v.track.y + v.track.height
  }

  lemma ShiftDirection(current: real, track: Box, g: Goal)
    requires g.min < g.max && track.width > 1
    ensures Shift(current, track, g) > 0.0 <==> current < g.target
    ensures Shift(current, track, g) < 0.0 <==> current > g.target
  {
    var w, range := (Right(track) - track.x) as real, g.max - g.min;
    QuotientSign(w * (g.target - current), range);
  }

  lemma QuotientSign(a: real, b: real)
    requires b > 0.0
    ensures a / b > 0.0 <==> a > 0.0
    ensures a / b < 0.0 <==> a < 0.0
  {
    DivideBack(a, b);
  }

  /** A sound look is refused only when the thumb is already at the end of the track it
      would have to pass; otherwise, unless the value is close enough, the thumb is
      dragged from its centre towards the target. */
  lemma DecideMeans(v: View, g: Goal)
    requires Sensible(g)
    ensures Sound(v, g) <==> Trouble(v, g).None?
    ensures Sound(v, g) ==> (Decide(v, g).Stay? <==> Hits(v.current, g))
    ensures Sound(v, g) && !Hits(v.current, g) ==>
              (Decide(v, g) == Refuse(Pinned) <==> CentreX(v.thumb) == if v.current < g.target then Right(v.track) else v.track.x)
              && match Decide(v, g)
                 case Move(d) => d.fromX == CentreX(v.thumb) && d.y == CentreY(v.thumb) && (d.fromX < d.toX <==> v.current < g.target)
                 case Refuse(problem) => problem == Pinned
                 case Stay(_) => false
  {
    if Sound(v, g) && !Hits(v.current, g) {
      ShiftDirection(v.current, v.track, g);
    }
  }

  /** The whole run from the drags already sent. */
  function Run(env: Environment, g: Goal, drags: seq<Drag>): (r: Report)
    requires Sensible(g) && |drags| <= g.adjustments + 1
    requires drags == [] || env.read(drags).Some?
    ensures drags <= r.drags && |r.drags| <= g.adjustments + 1
    ensures r.outcome.Passed? ==> Hits(r.outcome.value, g) && r.outcome.changed == (r.drags != [])
    ensures r.outcome.Failed? ==> |r.drags| == g.adjustments + 1
    decreases g.adjustments + 1 - |drags|
  {
    if |drags| == g.adjustments + 1 then Report(Failed(env.read(drags).value), drags)
    else match Decide(env.view(drags), g)
      case Refuse(problem) => Report(Refused(problem), drags)
      case Stay(value) => Report(Passed(value, drags != [], |drags|), drags)
      case Move(drag) =>
        var sent := drags + [drag];
        if env.stop(sent) then Report(Stopped, sent)
        else match env.read(sent)
          case None => Report(Refused(TextNotNumber), sent)
          case Some(value) =>
            if Hits(value, g) then Report(Passed(value, true, |drags|), sent)
            else Run(env, g, sent)
  }

  /** After these drags the action goes on: no stop is requested, and the text is a
      number that is not close enough. */
  predicate GoesOn(env: Environment, g: Goal, drags: seq<Drag>) {
    !env.stop(drags) && env.read(drags).Some? && !Hits(env.read(drags).value, g)
  }

  /** The last look shows the value. */
  predicate Shows(v: View, value: real) {
    v.View? && v.current == value
  }

  /** What an outcome says about the environment: a value that passes or fails was
      shown or read after the last drag, and counts the corrections; a stop was
      requested; or a refusal names what was wrong with the text or the look. */
  predicate Justified(env: Environment, g: Goal, r: Report, sent: nat) {
    var looked := |r.drags| > sent ==> GoesOn(env, g, r.drags);
    var asked := |r.drags| > sent && !env.stop(r.drags);
    match r.outcome
    case Rejected => false
    case Stopped => |r.drags| > sent && env.stop(r.drags)
    case Failed(value) => looked && |r.drags| == g.adjustments + 1 && env.read(r.drags) == Some(value)
    case Passed(value, changed, adjustments) =>
      && Hits(value, g) && changed == (r.drags != [])
      && (|| (looked && Shows(env.view(r.drags), value) && adjustments == |r.drags|)
          || (asked && env.read(r.drags) == Some(value) && adjustments == |r.drags| - 1))
    case Refused(problem) =>
      || (asked && env.read(r.drags).None? && problem == TextNotNumber)
      || (looked && Trouble(env.view(r.drags), g) == Some(problem))
      || (looked && Trouble(env.view(r.drags), g).None? && problem == Pinned && !Hits(env.view(r.drags).current, g))
  }

  /** Every outcome of a run is justified. */
  lemma {:induction false} RunJustified(env: Environment, g: Goal, drags: seq<Drag>)
    requires Sensible(g) && |drags| <= g.adjustments + 1
    requires drags == [] || env.read(drags).Some?
    ensures Justified(env, g, Run(env, g, drags), |drags|)
    decreases g.adjustments + 1 - |drags|
  {
    if |drags| < g.adjustments + 1 {
      var plan := Decide(env.view(drags), g);
      if plan.Move? && GoesOn(env, g, drags + [plan.drag]) {
        RunJustified(env, g, drags + [plan.drag]);
      }
    }
  }

  /** Before its last drag a run has read a number each time, not close enough, and met no stop. */
  lemma {:induction false} RunGoesOn(env: Environment, g: Goal, drags: seq<Drag>, i: nat)
    requires Sensible(g) && |drags| <= g.adjustments + 1
    requires drags == [] || env.read(drags).Some?
    requires |drags| < i < |Run(env, g, drags).drags|
    ensures GoesOn(env, g, Run(env, g, drags).drags[..i])
    decreases g.adjustments + 1 - |drags|
  {
    var sent := drags + [Decide(env.view(drags), g).drag];
    if i == |sent| {
      assert Run(env, g, sent).drags[..i] == sent;
    } else {
      RunGoesOn(env, g, sent, i);
    }
  }

  /** A text that is not a number after a drag is an error, never a success. */
  lemma UnreadIsRefused(env: Environment, g: Goal)
    requires Sensible(g)
    ensures var r := Run(env, g, []);
            r.drags != [] && !env.stop(r.drags) && env.read(r.drags).None? ==> r.outcome == Refused(TextNotNumber)
  {
    RunJustified(env, g, []);
  }

  /** `SetSliderValueAction.execute`. */
  method Execute(env: Environment, g: Goal) returns (r: Report)
    ensures r == if Sensible(g) then Run(env, g, []) else Report(Rejected, [])
  {
    if !Sensible(g) {
      return Report(Rejected, []);
    }
    var drags: seq<Drag> := [];
    var actual := 0.0;
    while |drags| < g.adjustments + 1
      invariant |drags| <= g.adjustments + 1
      invariant drags != [] ==> env.read(drags) == Some(actual)
      invariant Run(env, g, []) == Run(env, g, drags)
    {
      var plan := Decide(env.view(drags), g);
      if plan.Refuse? {
        return Report(Refused(plan.problem), drags);
      }
      if plan.Stay? {
        return Report(Passed(plan.value, drags != [], |drags|), drags);
      }
      var sent := drags + [plan.drag];
      if env.stop(sent) {
        return Report(Stopped, sent);
      }
      var reading := env.read(sent);
      if reading.None? {
        return Report(Refused(TextNotNumber), sent);
      }
      actual := reading.value;
      if Hits(actual, g) {
        return Report(Passed(actual, true, |drags|), sent);
      }
      drags := sent;
    }
    r := Report(Failed(actual), drags);
  }

  // ---------- a slider whose text is exactly affine in the thumb's position ----------

  /** The value of one pixel of the track. */
  function Pixel(track: Box, g: Goal): (p: real)
    requires track.width > 1 && g.min < g.max
    ensures p > 0.0
  {
    (g.max - g.min) / (Right(track) - track.x) as real
  }

  function Value(x: int, track: Box, g: Goal): real
    requires track.width > 1 && g.min < g.max
  {
    g.min + Pixel(track, g) * (x - track.x) as real
  }

  /** Where on the track, in fractions of a pixel, the target value lies. */
  function Spot(track: Box, g: Goal): real
    requires track.width > 1 && g.min < g.max
  {
    track.x as real + (g.target - g.min) / Pixel(track, g)
  }

  function Position(drags: seq<Drag>, start: int): int {
    if drags == [] then start else drags[|drags| - 1].toX
  }

  /** The slider shows the exact value of wherever the last drag left it. */
  predicate ExactAt(env: Environment, g: Goal, track: Box, start: int, drags: seq<Drag>)
    requires track.width > 1 && g.min < g.max
  {
    var x := Position(drags, start);
    track.x <= x <= Right(track) ==>
      var v := env.view(drags);
      && v.View? && v.track == track && v.current == Value(x, track, g)
      && v.thumb.width > 0 && v.thumb.height > 0 && CentreX(v.thumb) == x
      && track.y <= CentreY(v.thumb) < track.y + track.height
      && env.read(drags) == Some(Value(x, track, g)) && !env.stop(drags)
  }

  ghost predicate Exact(env: Environment, g: Goal, track: Box, start: int)
    requires track.width > 1 && g.min < g.max
  {
    forall drags :: ExactAt(env, g, track, start, drags)
  }

  /** Some pixel of the track shows a value within the tolerance. */
  ghost predicate Attainable(track: Box, g: Goal)
    requires track.width > 1 && g.min < g.max
  {
    exists x :: track.x <= x <= Right(track) && Hits(Value(x, track, g), g)
  }

  lemma DivideBack(a: real, b: real)
    requires b != 0.0
    ensures a / b * b == a
  {
  }

  lemma Scales(p: real, a: real)
    requires p > 0.0
    ensures Abs(p * a) == p * Abs(a)
  {
  }

  /** The error of a pixel is its distance from the spot, in pixels' worth. */
  lemma ErrorIsDistance(x: int, track: Box, g: Goal)
    requires track.width > 1 && g.min < g.max
    ensures Abs(Value(x, track, g) - g.target) == Pixel(track, g) * Abs(x as real - Spot(track, g))
  {
    var p := Pixel(track, g);
    DivideBack(g.target - g.min, p);
    calc {
      Value(x, track, g) - g.target;
      p * (x - track.x) as real - (g.target - g.min);
      p * (x - track.x) as real - p * ((g.target - g.min) / p);
      p * ((x - track.x) as real - (g.target - g.min) / p);
      p * (x as real - Spot(track, g));
    }
    Scales(p, x as real - Spot(track, g));
  }

  lemma CloserHits(x: int, y: int, track: Box, g: Goal)
    requires track.width > 1 && g.min < g.max
    requires Abs(x as real - Spot(track, g)) <= Abs(y as real - Spot(track, g)) && Hits(Value(y, track, g), g)
    ensures Hits(Value(x, track, g), g)
  {
    ErrorIsDistance(x, track, g);
    ErrorIsDistance(y, track, g);
    LessByFactor(Pixel(track, g), Abs(x as real - Spot(track, g)), Abs(y as real - Spot(track, g)));
  }

  lemma LessByFactor(p: real, a: real, b: real)
    requires p > 0.0 && a <= b
    ensures p * a <= p * b
  {
  }

  /** Every drag a run sends is one that its last look allowed. */
  lemma {:induction false} DragsStayOnTrack(env: Environment, g: Goal, drags: seq<Drag>, k: nat)
    requires Sensible(g) && |drags| <= g.adjustments + 1
    requires drags == [] || env.read(drags).Some?
    requires |drags| <= k < |Run(env, g, drags).drags|
    ensures var all := Run(env, g, drags).drags; OnTrack(all[k], env.view(all[..k]))
    decreases g.adjustments + 1 - |drags|
  {
    var all := Run(env, g, drags).drags;
    var plan := Decide(env.view(drags), g);
    var sent := drags + [plan.drag];
    if k == |drags| {
      assert all[..k] == drags && sent <= all;
      assert all[k] == sent[k];
    } else {
      DragsStayOnTrack(env, g, sent, k);
    }
  }

  /** The wanted shift is the distance from the thumb to the spot. */
  lemma ShiftIsDistance(x: int, track: Box, g: Goal)
    requires track.width > 1 && g.min < g.max
    ensures Shift(Value(x, track, g), track, g) == Spot(track, g) - x as real
  {
    var p, n := Pixel(track, g), (Right(track) - track.x) as real;
    var d := Spot(track, g) - x as real;
    DivideBack(g.max - g.min, n);
    DivideBack(g.target - g.min, p);
    assert g.target - Value(x, track, g) == p * d by {
      assert p * d == p * ((g.target - g.min) / p) - p * (x - track.x) as real;
    }
    assert n * (p * d) == (p * n) * d;
    assert (p * n) * d / (p * n) == d;
  }

  lemma SpotOnTrack(track: Box, g: Goal)
    requires track.width > 1 && Sensible(g)
    ensures track.x as real <= Spot(track, g) <= Right(track) as real
  {
    var p, n := Pixel(track, g), (Right(track) - track.x) as real;
    var d := (g.target - g.min) / p;
    DivideBack(g.max - g.min, n);
    DivideBack(g.target - g.min, p);
    assert p * d >= 0.0 && p * (n - d) >= 0.0;
    assert d >= 0.0 && n - d >= 0.0;
  }

  /** The pixel a drag from `x` aims at. */
  function Aim(x: int, spot: real): int {
    x + Steps(spot - x as real)
  }

  /** The shift is never zero and misses the wanted one by less than a pixel, and
      no shift but none at all misses it by less. */
  lemma StepsAreBest(delta: real, k: int)
    requires delta != 0.0
    ensures Steps(delta) != 0 && Abs(Steps(delta) as real - delta) < 1.0
    ensures Abs(Steps(delta) as real - delta) <= Abs(k as real - delta) || Abs(delta) <= Abs(k as real - delta)
  {
    var n := Round(delta);
    if n != 0 && k != n {
      assert k as real >= n as real + 1.0 || k as real <= n as real - 1.0;
    } else if n == 0 && k != 0 {
      assert k as real >= 1.0 || k as real <= -1.0;
    }
  }

  lemma StepsStayInside(delta: real, low: int, high: int)
    requires low <= 0 <= high && low as real <= delta <= high as real && delta != 0.0
    ensures low <= Steps(delta) <= high
  {
  }

  /** The pixel an exact slider is dragged to hits the target if any pixel does. */
  lemma AimHits(x: int, track: Box, g: Goal)
    requires track.width > 1 && Sensible(g)
    requires Attainable(track, g) && !Hits(Value(x, track, g), g) && Spot(track, g) != x as real
    ensures Hits(Value(Aim(x, Spot(track, g)), track, g), g)
  {
    var spot := Spot(track, g);
    var y :| track.x <= y <= Right(track) && Hits(Value(y, track, g), g);
    StepsAreBest(spot - x as real, y - x);
    if Abs(spot - x as real) <= Abs((y - x) as real - (spot - x as real)) {
      CloserHits(x, y, track, g);
    } else {
      CloserHits(Aim(x, spot), y, track, g);
    }
  }

  /** The error after the drag is less than what one pixel is worth. */
  lemma AimMissesByLess(x: int, track: Box, g: Goal)
    requires track.width > 1 && Sensible(g) && Spot(track, g) != x as real
    ensures Abs(Value(Aim(x, Spot(track, g)), track, g) - g.target) < Pixel(track, g)
  {
    AimIsClose(x, Spot(track, g));
    CloseMissesByLess(Aim(x, Spot(track, g)), track, g);
  }

  lemma CloseMissesByLess(x: int, track: Box, g: Goal)
    requires track.width > 1 && g.min < g.max && Abs(x as real - Spot(track, g)) < 1.0
    ensures Abs(Value(x, track, g) - g.target) < Pixel(track, g)
  {
    ErrorIsDistance(x, track, g);
    LessThanOne(Abs(Value(x, track, g) - g.target), Pixel(track, g), Abs(x as real - Spot(track, g)));
  }

  lemma AimIsClose(x: int, spot: real)
    requires spot != x as real
    ensures Abs(Aim(x, spot) as real - spot) < 1.0
  {
    StepsAreBest(spot - x as real, 0);
    assert Aim(x, spot) as real - spot == Steps(spot - x as real) as real - (spot - x as real);
  }

  lemma LessThanOne(m: real, p: real, a: real)
    requires p > 0.0 && a < 1.0 && m == p * a
    ensures m < p
  {
  }

  lemma AimOnTrack(x: int, track: Box, g: Goal)
    requires track.width > 1 && Sensible(g) && track.x <= x <= Right(track) && Spot(track, g) != x as real
    ensures Aim(x, Spot(track, g)) != x && track.x <= Aim(x, Spot(track, g)) <= Right(track)
  {
    var delta := Spot(track, g) - x as real;
    SpotOnTrack(track, g);
    StepsAreBest(delta, 0);
    StepsStayInside(delta, track.x - x, Right(track) - x);
  }

  lemma MissIsAway(x: int, track: Box, g: Goal)
    requires track.width > 1 && Sensible(g) && !Hits(Value(x, track, g), g)
    ensures Spot(track, g) != x as real
  {
    ErrorIsDistance(x, track, g);
  }

  lemma DecideMoves(v: View, g: Goal, delta: real)
    requires Sensible(g) && v.View? && Trouble(v, g).None? && !Hits(v.current, g)
    requires Shift(v.current, v.track, g) == delta && delta != 0.0
    requires v.track.x <= CentreX(v.thumb) + Steps(delta) <= Right(v.track)
    ensures Decide(v, g) == Move(Drag(CentreX(v.thumb), CentreX(v.thumb) + Steps(delta), CentreY(v.thumb)))
  {
    StepsAreBest(delta, 0);
  }

  /** One drag of an exact slider: the clamp never binds, the thumb lands on another
      pixel of the track, the error is less than one pixel's worth, and the target
      is hit if any pixel of the track hits it. */
  lemma ExactDrag(v: View, g: Goal, x: int)
    requires Sensible(g) && v.View? && Trouble(v, g).None? && x == CentreX(v.thumb)
    requires v.current == Value(x, v.track, g) && !Hits(v.current, g)
    ensures var end := Aim(x, Spot(v.track, g));
            && Decide(v, g) == Move(Drag(x, end, CentreY(v.thumb)))
            && end != x && v.track.x <= end <= Right(v.track)
            && Abs(Value(end, v.track, g) - g.target) < Pixel(v.track, g)
            && (Attainable(v.track, g) ==> Hits(Value(end, v.track, g), g))
  {
    MissIsAway(x, v.track, g);
    AimOnTrack(x, v.track, g);
    AimMissesByLess(x, v.track, g);
    if Attainable(v.track, g) {
      AimHits(x, v.track, g);
    }
    ShiftIsDistance(x, v.track, g);
    DecideMoves(v, g, Spot(v.track, g) - x as real);
  }

  /** On an exact slider a round that does not hit sends one on-track drag; nothing
      is ever refused. */
  lemma ExactRound(env: Environment, g: Goal, track: Box, start: int, drags: seq<Drag>)
    requires Sensible(g) && track.width > 1 && track.height > 0
    requires ExactAt(env, g, track, start, drags)
    requires var x := Position(drags, start); track.x <= x <= Right(track) && !Hits(Value(x, track, g), g)
    ensures var d := Decide(env.view(drags), g);
            && d.Move? && track.x <= d.drag.toX <= Right(track)
            && (Attainable(track, g) ==> Hits(Value(d.drag.toX, track, g), g))
  {
    var x := Position(drags, start);
    ValueInRange(x, track, g);
    ExactDrag(env.view(drags), g, x);
  }

  lemma ValueInRange(x: int, track: Box, g: Goal)
    requires track.width > 1 && Sensible(g) && track.x <= x <= Right(track)
    ensures g.min <= Value(x, track, g) <= g.max
  {
    var p, n := Pixel(track, g), (Right(track) - track.x) as real;
    DivideBack(g.max - g.min, n);
    assert p * (x - track.x) as real >= 0.0;
    assert p * (n - (x - track.x) as real) >= 0.0;
  }

  /** If no pixel of an exact slider hits the target, every allowed drag is sent and
      the action fails. */
  lemma {:induction false} UnattainableFails(env: Environment, g: Goal, track: Box, start: int, drags: seq<Drag>)
    requires Sensible(g) && track.width > 1 && track.height > 0 && !Attainable(track, g)
    requires Exact(env, g, track, start) && |drags| <= g.adjustments + 1
    requires track.x <= Position(drags, start) <= Right(track)
    ensures drags == [] || env.read(drags).Some?
    ensures Run(env, g, drags).outcome.Failed?
    decreases g.adjustments + 1 - |drags|
  {
    assert ExactAt(env, g, track, start, drags);
    if |drags| <= g.adjustments {
      ExactRound(env, g, track, start, drags);
      var sent := drags + [Decide(env.view(drags), g).drag];
      assert ExactAt(env, g, track, start, sent);
      UnattainableFails(env, g, track, start, sent);
    }
  }

  /** On an exact slider the action passes if and only if some pixel of the track
      shows a value within the tolerance; it then needs at most one drag, whatever
      number of corrections is allowed. */
  lemma PassesIffAttainable(env: Environment, g: Goal, track: Box, start: int)
    requires Sensible(g) && track.width > 1 && track.height > 0
    requires Exact(env, g, track, start) && track.x <= start <= Right(track)
    ensures Run(env, g, []).outcome.Passed? <==> Attainable(track, g)
    ensures Attainable(track, g) ==> |Run(env, g, []).drags| <= 1
    ensures !Attainable(track, g) ==> |Run(env, g, []).drags| == g.adjustments + 1
  {
    if Attainable(track, g) {
      AttainableStops(env, g, track, start);
    } else {
      UnattainableFails(env, g, track, start, []);
    }
  }

  lemma AttainableStops(env: Environment, g: Goal, track: Box, start: int)
    requires Sensible(g) && track.width > 1 && track.height > 0 && Attainable(track, g)
    requires Exact(env, g, track, start) && track.x <= start <= Right(track)
    ensures Run(env, g, []).outcome.Passed? && |Run(env, g, []).drags| <= 1
  {
    var none: seq<Drag> := [];
    assert ExactAt(env, g, track, start, none);
    if Hits(Value(start, track, g), g) {
      ValueInRange(start, track, g);
    } else {
      ExactRound(env, g, track, start, none);
      var sent := none + [Decide(env.view(none), g).drag];
      assert ExactAt(env, g, track, start, sent);
    }
  }

  /** A tolerance of half a pixel's worth can always be attained. */
  lemma HalfPixelSuffices(track: Box, g: Goal)
    requires track.width > 1 && Sensible(g) && g.tolerance >= 0.5 * Pixel(track, g)
    ensures Attainable(track, g)
  {
    var spot := Spot(track, g);
    var x := Round(spot);
    SpotOnTrack(track, g);
    ErrorIsDistance(x, track, g);
    HalfOrLess(Abs(Value(x, track, g) - g.target), Pixel(track, g), Abs(x as real - spot));
  }

  lemma HalfOrLess(m: real, p: real, a: real)
    requires p > 0.0 && a <= 0.5 && m == p * a
    ensures m <= 0.5 * p
  {
  }
}
