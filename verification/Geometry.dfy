/** Gesture geometry of the list search: `_clip_rect`, `_intersect_rect`,
    `_point_in_rect`, `_vertical_swipe_points` and `_scroll_geometry`
    (agent/executor/actions.py). Coordinates are integers; rounding is any choice
    of a nearest integer. */
module Geometry {
  import opened Common

  datatype Result<+T, +E> = Ok(value: T) | Err(error: E)

  datatype Rect = Rect(x: int, y: int, width: int, height: int)

  datatype Direction = Up | Down | Other

  /** A vertical swipe: from (x, startY) to (x, endY). */
  datatype Swipe = Swipe(x: int, startY: int, endY: int, distance: int)

  datatype SwipeError = TooSmall | UnknownDirection

  datatype Region = ListVisible | ParentIntersection | ParentFallback | ParentVisible

  datatype Gesture = Gesture(region: Region, swipe: Swipe)

  datatype GestureError = NoSwipe(error: SwipeError) | Unsafe | GuardFired

  /** `_point_in_rect`. */
  predicate Contains(r: Rect, x: int, y: int) {
    r.x <= x < r.x + r.width && r.y <= y < r.y + r.height
  }

  /** `_clip_rect`. */
  function Clip(r: Rect, screenWidth: int, screenHeight: int): (c: Rect)
    ensures forall x, y :: Contains(c, x, y) <==> Contains(r, x, y) && 0 <= x < screenWidth && 0 <= y < screenHeight
  {
    var left, top := Max(0, r.x), Max(0, r.y);
    Rect(left, top, Max(0, Min(r.x + r.width, screenWidth) - left), Max(0, Min(r.y + r.height, screenHeight) - top))
  }

  /** `_intersect_rect`. */
  function Intersect(a: Rect, b: Rect): (c: Rect)
    ensures forall x, y :: Contains(c, x, y) <==> Contains(a, x, y) && Contains(b, x, y)
    ensures c.width >= 0 && c.height >= 0
  {
    var left, top := Max(a.x, b.x), Max(a.y, b.y);
    Rect(left, top, Max(0, Min(a.x + a.width, b.x + b.width) - left), Max(0, Min(a.y + a.height, b.y + b.height) - top))
  }

  /** `_rect_area`. */
  function Area(r: Rect): int {
    Max(0, r.width) * Max(0, r.height)
  }

  /** A choice of a nearest integer to a twentieth of each height. */
  ghost predicate Rounds(round: int -> int) {
    forall h :: -10 <= 20 * round(h) - h <= 10
  }

  /** How far the gesture keeps from the upper and lower edge. */
  function Margin(height: int, round: int -> int): int {
    Min(Max(8, round(height)), (height - 1) / 2)
  }

  /** `_vertical_swipe_points`. */
  function VerticalSwipe(r: Rect, d: Direction, target: int, round: int -> int): Result<Swipe, SwipeError> {
    if r.width <= 0 || r.height <= 0 then Err(TooSmall)
    else
      var margin := Margin(r.height, round);
      var safeTop, safeBottom := r.y + margin, r.y + r.height - 1 - margin;
      var available := safeBottom - safeTop;
      if available <= 0 then Err(TooSmall)
      else
        var distance := Min(Max(1, target), available);
        var x := r.x + r.width / 2;
        var centred := (safeTop + safeBottom - distance + 1) / 2;
        match d
        case Up => Ok(Swipe(x, centred + distance, centred, distance))
        case Down => Ok(Swipe(x, centred, centred + distance, distance))
        case Other => Err(UnknownDirection)
  }

  predicate BothInside(r: Rect, s: Swipe) {
    Contains(r, s.x, s.startY) && Contains(r, s.x, s.endY)
  }

  /** `_scroll_geometry`, for a list already clipped to the screen. */
  function ScrollGeometry(list: Rect, parent: Rect, d: Direction, target: int, fallback: bool, round: int -> int):
    Result<Gesture, GestureError>
  {
    Choose(list, parent, d, fallback, VerticalSwipe(list, d, target, round),
           VerticalSwipe(Intersect(list, parent), d, target, round), VerticalSwipe(parent, d, target, round))
  }

  /** The choice between the swipe over the visible list, the one over its overlap
      with the parent and the one over the whole parent. */
  function Choose(list: Rect, parent: Rect, d: Direction, fallback: bool, direct: Result<Swipe, SwipeError>,
                  crossing: Result<Swipe, SwipeError>, whole: Result<Swipe, SwipeError>): Result<Gesture, GestureError>
  {
    if d.Up? then
      if direct.Ok? && BothInside(parent, direct.value) && direct.value.distance >= 8 then
        Ok(Gesture(ListVisible, direct.value))
      else
        var overlap := Area(Intersect(list, parent)) > 0;
        if overlap && crossing.Ok? && crossing.value.distance >= 8 && BothInside(parent, crossing.value) then
          Ok(Gesture(ParentIntersection, crossing.value))
        else if !overlap && direct.Ok? && BothInside(parent, direct.value) then
          Ok(Gesture(ListVisible, direct.value))
        else if !fallback then Err(Unsafe)
        else Guarded(ParentFallback, parent, whole)
    else Guarded(ParentVisible, parent, whole)
  }

  /** The check of both endpoints that precedes every returned gesture. */
  function Guarded(region: Region, parent: Rect, swipe: Result<Swipe, SwipeError>): Result<Gesture, GestureError> {
    match swipe
    case Err(e) => Err(NoSwipe(e))
    case Ok(s) => if BothInside(parent, s) then Ok(Gesture(region, s)) else Err(GuardFired)
  }

  // ---------- when a swipe exists and where it lies ----------

  /** Half of the remaining height is always kept free, and the free part vanishes
      only for odd heights up to 17. */
  lemma MarginLeaves(height: int, round: int -> int)
    requires Rounds(round) && height > 0
    ensures var m := Margin(height, round);
            0 <= m && (height - 1 - 2 * m > 0 <==> !(height % 2 == 1 && height <= 17))
    ensures height - 1 - 2 * Margin(height, round) >= 8 <==> height >= 25
  {
  }

  /** A swipe exists in a region exactly if the region is not empty and its height
      is not an odd number up to 17. */
  lemma SwipeExistsIff(r: Rect, d: Direction, target: int, round: int -> int)
    requires Rounds(round) && !d.Other?
    ensures VerticalSwipe(r, d, target, round).Ok?
            <==> r.width > 0 && r.height > 0 && !(r.height % 2 == 1 && r.height <= 17)
  {
    if r.height > 0 {
      MarginLeaves(r.height, round);
    }
  }

  /** The swipe lies in the region with the margin free on both sides, goes the
      right way over exactly its distance, the distance is the wanted one where the
      margins allow it, and it is centred to within a pixel. */
  predicate WellDrawn(s: Swipe, r: Rect, d: Direction, target: int, margin: int) {
    && BothInside(r, s)
    && (if d.Up? then s.startY - s.endY == s.distance else s.endY - s.startY == s.distance)
    && 1 <= s.distance <= Max(1, target)
    && (s.distance < Max(1, target) ==> s.distance == r.height - 1 - 2 * margin)
    && r.y + margin <= Min(s.startY, s.endY) && Max(s.startY, s.endY) <= r.y + r.height - 1 - margin
    && -1 <= (s.startY + s.endY) - (2 * r.y + r.height - 1) <= 1
    && -1 <= 2 * s.x - (2 * r.x + r.width - 1) <= 1
  }

  lemma SwipeIsWellDrawn(r: Rect, d: Direction, target: int, round: int -> int)
    requires Rounds(round) && VerticalSwipe(r, d, target, round).Ok?
    ensures WellDrawn(VerticalSwipe(r, d, target, round).value, r, d, target, Margin(r.height, round))
  {
    MarginLeaves(r.height, round);
  }

  /** A swipe of eight pixels or more exists exactly in regions at least 25 high. */
  lemma LongSwipeIff(r: Rect, target: int, round: int -> int)
    requires Rounds(round)
    ensures (VerticalSwipe(r, Up, target, round).Ok? && VerticalSwipe(r, Up, target, round).value.distance >= 8)
            <==> r.width > 0 && r.height >= 25 && target >= 8
  {
    if r.height > 0 {
      MarginLeaves(r.height, round);
    }
  }

  // ---------- the gesture that is sent ----------

  lemma InsideBoth(a: Rect, b: Rect, s: Swipe)
    requires BothInside(Intersect(a, b), s)
    ensures BothInside(a, s) && BothInside(b, s)
  {
  }

  lemma PositiveArea(r: Rect)
    ensures Area(r) > 0 <==> r.width > 0 && r.height > 0
  {
  }

  lemma NoOverlapNoPath(a: Rect, b: Rect, s: Swipe)
    requires Area(Intersect(a, b)) <= 0 && BothInside(a, s)
    ensures !BothInside(b, s)
  {
    PositiveArea(Intersect(a, b));
  }

  /** Inside a region, going the right way over exactly its distance, and no longer
      than wanted. */
  predicate Sound(s: Swipe, r: Rect, d: Direction, target: int) {
    && BothInside(r, s) && 1 <= s.distance <= Max(1, target)
    && (if d.Up? then s.startY - s.endY == s.distance else s.endY - s.startY == s.distance)
  }

  predicate SoundIfOk(swipe: Result<Swipe, SwipeError>, r: Rect, d: Direction, target: int) {
    swipe.Ok? ==> Sound(swipe.value, r, d, target)
  }

  lemma SwipeIsSound(r: Rect, d: Direction, target: int, round: int -> int)
    requires Rounds(round)
    ensures SoundIfOk(VerticalSwipe(r, d, target, round), r, d, target)
  {
    if VerticalSwipe(r, d, target, round).Ok? {
      SwipeIsWellDrawn(r, d, target, round);
    }
  }

  lemma ChoiceIsSafe(list: Rect, parent: Rect, d: Direction, target: int, fallback: bool, direct: Result<Swipe, SwipeError>,
                     crossing: Result<Swipe, SwipeError>, whole: Result<Swipe, SwipeError>)
    requires SoundIfOk(direct, list, d, target) && SoundIfOk(crossing, Intersect(list, parent), d, target)
    requires SoundIfOk(whole, parent, d, target)
    ensures var g := Choose(list, parent, d, fallback, direct, crossing, whole);
            && g != Err(GuardFired)
            && (g.Ok? ==> Sound(g.value.swipe, parent, d, target))
            && (g.Ok? && (g.value.region.ListVisible? || g.value.region.ParentIntersection?) ==>
                  BothInside(list, g.value.swipe))
  {
  }

  /** Whatever gesture is returned has both ends inside the parent, on one vertical
      line, exactly its distance apart, and no longer than wanted; only a gesture
      over the parent may leave the visible part of the list. The last check of the
      endpoints never fires. */
  lemma GestureIsSafe(list: Rect, parent: Rect, d: Direction, target: int, fallback: bool, round: int -> int)
    requires Rounds(round)
    ensures var g := ScrollGeometry(list, parent, d, target, fallback, round);
            && g != Err(GuardFired)
            && (g.Ok? ==> Sound(g.value.swipe, parent, d, target))
            && (g.Ok? && (g.value.region.ListVisible? || g.value.region.ParentIntersection?) ==>
                  BothInside(list, g.value.swipe))
  {
    var both := Intersect(list, parent);
    SwipeIsSound(list, d, target, round);
    SwipeIsSound(both, d, target, round);
    SwipeIsSound(parent, d, target, round);
    ChoiceIsSafe(list, parent, d, target, fallback, VerticalSwipe(list, d, target, round),
                 VerticalSwipe(both, d, target, round), VerticalSwipe(parent, d, target, round));
  }

  /** Scrolling up without the fallback works exactly if at least eight pixels are
      wanted and either the swipe over the list stays inside the parent and is that
      long, or the overlap of list and parent is at least 25 high. */
  lemma UpWorksIff(list: Rect, parent: Rect, target: int, round: int -> int)
    requires Rounds(round)
    ensures var both := Intersect(list, parent);
            ScrollGeometry(list, parent, Up, target, false, round).Ok?
            <==> target >= 8
                 && ((both.width > 0 && both.height >= 25)
                     || (list.width > 0 && list.height >= 25
                         && BothInside(parent, VerticalSwipe(list, Up, target, round).value)))
  {
    var both := Intersect(list, parent);
    LongSwipeIff(list, target, round);
    LongSwipeIff(both, target, round);
    if VerticalSwipe(both, Up, target, round).Ok? {
      SwipeIsWellDrawn(both, Up, target, round);
      InsideBoth(list, parent, VerticalSwipe(both, Up, target, round).value);
    }
    if VerticalSwipe(list, Up, target, round).Ok? {
      SwipeIsWellDrawn(list, Up, target, round);
      if Area(both) <= 0 {
        NoOverlapNoPath(list, parent, VerticalSwipe(list, Up, target, round).value);
      }
    }
    PositiveArea(both);
  }

  /** The part of the screen a kind of gesture is drawn in. */
  function RectOf(region: Region, list: Rect, parent: Rect): Rect {
    match region
    case ListVisible => list
    case ParentIntersection => Intersect(list, parent)
    case ParentFallback => parent
    case ParentVisible => parent
  }

  /** The swipe meant for a region. */
  predicate IsChoice(g: Gesture, d: Direction, fallback: bool, direct: Result<Swipe, SwipeError>,
                     crossing: Result<Swipe, SwipeError>, whole: Result<Swipe, SwipeError>)
  {
    match g.region
    case ListVisible => d.Up? && direct == Ok(g.swipe)
    case ParentIntersection => d.Up? && crossing == Ok(g.swipe)
    case ParentFallback => d.Up? && fallback && whole == Ok(g.swipe)
    case ParentVisible => !d.Up? && whole == Ok(g.swipe)
  }

  lemma ChoiceOfRegion(list: Rect, parent: Rect, d: Direction, fallback: bool, direct: Result<Swipe, SwipeError>,
                       crossing: Result<Swipe, SwipeError>, whole: Result<Swipe, SwipeError>)
    ensures var g := Choose(list, parent, d, fallback, direct, crossing, whole);
            && (g.Ok? ==> IsChoice(g.value, d, fallback, direct, crossing, whole))
            && (d.Up? && direct.Ok? && direct.value.distance >= 8 && BothInside(parent, direct.value) ==>
                  g == Ok(Gesture(ListVisible, direct.value)))
  {
  }

  lemma NoOtherSwipe(r: Rect, target: int, round: int -> int)
    ensures VerticalSwipe(r, Other, target, round).Err?
  {
  }

  /** Every gesture is well drawn in the part it names: the list or its overlap with
      the parent, or the fallback, for scrolling up; the parent for scrolling down. */
  lemma GestureIsOfRegion(list: Rect, parent: Rect, d: Direction, target: int, fallback: bool, round: int -> int)
    requires Rounds(round) && ScrollGeometry(list, parent, d, target, fallback, round).Ok?
    ensures var g := ScrollGeometry(list, parent, d, target, fallback, round).value;
            var r := RectOf(g.region, list, parent);
            && WellDrawn(g.swipe, r, d, target, Margin(r.height, round)) && !d.Other?
            && (d.Down? <==> g.region.ParentVisible?) && (g.region.ParentFallback? ==> fallback)
  {
    var r := RectOf(ScrollGeometry(list, parent, d, target, fallback, round).value.region, list, parent);
    ChoiceOfRegion(list, parent, d, fallback, VerticalSwipe(list, d, target, round),
                   VerticalSwipe(Intersect(list, parent), d, target, round), VerticalSwipe(parent, d, target, round));
    NoOtherSwipe(r, target, round);
    SwipeIsWellDrawn(r, d, target, round);
  }

  /** The visible list is preferred wherever the swipe over it is long enough and stays
      inside the parent. */
  lemma ListIsPreferred(list: Rect, parent: Rect, target: int, fallback: bool, round: int -> int)
    requires Rounds(round) && list.width > 0 && list.height >= 25 && target >= 8
    requires BothInside(parent, VerticalSwipe(list, Up, target, round).value)
    ensures ScrollGeometry(list, parent, Up, target, fallback, round)
         == Ok(Gesture(ListVisible, VerticalSwipe(list, Up, target, round).value))
  {
    LongSwipeIff(list, target, round);
    ChoiceOfRegion(list, parent, Up, fallback, VerticalSwipe(list, Up, target, round),
                   VerticalSwipe(Intersect(list, parent), Up, target, round), VerticalSwipe(parent, Up, target, round));
  }

  /** The parent has room for a swipe. */
  predicate Roomy(r: Rect) {
    r.width > 0 && r.height > 0 && !(r.height % 2 == 1 && r.height <= 17)
  }

  /** Scrolling down works exactly if the parent has room for a swipe. */
  lemma DownWorksIff(list: Rect, parent: Rect, target: int, fallback: bool, round: int -> int)
    requires Rounds(round)
    ensures ScrollGeometry(list, parent, Down, target, fallback, round).Ok? <==> Roomy(parent)
  {
    SwipeExistsIff(parent, Down, target, round);
    GestureIsSafe(list, parent, Down, target, fallback, round);
  }

  /** With the fallback, scrolling up works exactly if it works without, with the same
      gesture, or else the parent has room for a swipe. */
  lemma FallbackWorksIff(list: Rect, parent: Rect, target: int, round: int -> int)
    requires Rounds(round)
    ensures var plain := ScrollGeometry(list, parent, Up, target, false, round);
            var g := ScrollGeometry(list, parent, Up, target, true, round);
            && (g.Ok? <==> plain.Ok? || Roomy(parent)) && (plain.Ok? ==> g == plain)
            && (g.Ok? && !plain.Ok? ==> g.value.region == ParentFallback)
  {
    SwipeExistsIff(parent, Up, target, round);
    GestureIsSafe(list, parent, Up, target, true, round);
    ChoiceWithFallback(list, parent, VerticalSwipe(list, Up, target, round),
                       VerticalSwipe(Intersect(list, parent), Up, target, round), VerticalSwipe(parent, Up, target, round));
  }

  lemma ChoiceWithFallback(list: Rect, parent: Rect, direct: Result<Swipe, SwipeError>,
                           crossing: Result<Swipe, SwipeError>, whole: Result<Swipe, SwipeError>)
    ensures var plain := Choose(list, parent, Up, false, direct, crossing, whole);
            Choose(list, parent, Up, true, direct, crossing, whole)
            == if plain.Ok? then plain else Guarded(ParentFallback, parent, whole)
  {
  }
}
