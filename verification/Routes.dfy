/** Following a path visits its ends in the order of the routes that lead to them. */
module Routes {
  import opened Text
  import opened Locator
  import opened XPathQuery
  import opened XPathRoundTrip
  import opened Selector
  import opened Screen
  import opened Denotation
  import opened Axes

  // ---------- all routes, in the order of the evaluation ----------

  function Prepend(a: Place, rs: seq<Route>): (r: seq<Route>)
    ensures |r| == |rs| && forall i :: 0 <= i < |r| ==> r[i] == [a] + rs[i]
  {
    seq(|rs|, i requires 0 <= i < |rs| => [a] + rs[i])
  }

  /** The routes from one place after the other. */
  function Trails(roots: seq<Node>, ps: seq<Place>, path: seq<Segment>): seq<Route>
    requires AllPlaces(roots, ps)
    decreases |path|, |ps|
  {
    if ps == [] then [] else TrailsFrom(roots, ps[0], path) + Trails(roots, ps[1..], path)
  }

  function TrailsFrom(roots: seq<Node>, a: Place, path: seq<Segment>): seq<Route>
    requires Valid(roots, a)
    decreases |path|, 0
  {
    if path == [] then [[a]]
    else
      var (axis, depth) := StepOf(path[0]);
      AxisNodesValid(roots, a, axis, depth);
      Prepend(a, Trails(roots, AxisNodes(roots, a, axis, depth), path[1..]))
  }

  lemma PrependHolds(a: Place, rs: seq<Route>, r: Route)
    ensures r in Prepend(a, rs) <==> |r| > 0 && r[0] == a && r[1..] in rs
  {
    if r in Prepend(a, rs) {
      var i :| 0 <= i < |rs| && Prepend(a, rs)[i] == r;
      assert r[1..] == rs[i];
    }
    if |r| > 0 && r[0] == a && r[1..] in rs {
      var i :| 0 <= i < |rs| && rs[i] == r[1..];
      assert Prepend(a, rs)[i] == r;
    }
  }

  /** The list holds exactly the routes that follow the path. */
  lemma {:induction false} TrailsExact(roots: seq<Node>, ps: seq<Place>, path: seq<Segment>, r: Route)
    requires AllPlaces(roots, ps) && ValidPath(path) && SiblingFree(path)
    ensures r in Trails(roots, ps, path) <==> r != [] && r[0] in ps && Leads(roots, path, r)
    decreases |path|, |ps|
  {
    if ps != [] {
      TrailsFromExact(roots, ps[0], path, r);
      TrailsExact(roots, ps[1..], path, r);
      assert ps == [ps[0]] + ps[1..];
    }
  }

  lemma {:induction false} TrailsFromExact(roots: seq<Node>, a: Place, path: seq<Segment>, r: Route)
    requires Valid(roots, a) && ValidPath(path) && SiblingFree(path)
    ensures r in TrailsFrom(roots, a, path) <==> r != [] && r[0] == a && Leads(roots, path, r)
    decreases |path|, 0
  {
    if path == [] {
      assert r != [] && r[0] == a && |r| == 1 ==> r == [a];
    } else {
      var (axis, depth) := StepOf(path[0]);
      var next := AxisNodes(roots, a, axis, depth);
      AxisNodesValid(roots, a, axis, depth);
      PrependHolds(a, Trails(roots, next, path[1..]), r);
      if r != [] && r[0] == a {
        TrailsExact(roots, next, path[1..], r[1..]);
        if |r| > 1 {
          StepExact(roots, path[0], a, r[1]);
        }
      }
    }
  }

  // ---------- their ends are what the evaluator lists ----------

  function Ends(rs: seq<Route>): (r: seq<Place>)
    requires forall i :: 0 <= i < |rs| ==> rs[i] != []
    ensures |r| == |rs| && forall i :: 0 <= i < |r| ==> r[i] == End(rs[i])
  {
    seq(|rs|, i requires 0 <= i < |rs| => End(rs[i]))
  }

  predicate NonEmptyRoutes(rs: seq<Route>) {
    forall i :: 0 <= i < |rs| ==> rs[i] != []
  }

  lemma {:induction false} TrailsNonEmpty(roots: seq<Node>, ps: seq<Place>, path: seq<Segment>)
    requires AllPlaces(roots, ps)
    ensures NonEmptyRoutes(Trails(roots, ps, path))
    decreases |path|, |ps|
  {
    if ps != [] {
      TrailsFromNonEmpty(roots, ps[0], path);
      TrailsNonEmpty(roots, ps[1..], path);
    }
  }

  lemma TrailsFromNonEmpty(roots: seq<Node>, a: Place, path: seq<Segment>)
    requires Valid(roots, a)
    ensures NonEmptyRoutes(TrailsFrom(roots, a, path))
  {
  }

  lemma {:induction false} ExpandConcat(roots: seq<Node>, a: seq<Place>, b: seq<Place>, axis: string, depth: Option<nat>)
    requires AllPlaces(roots, a) && AllPlaces(roots, b)
    ensures Expand(roots, a + b, axis, depth) == Expand(roots, a, axis, depth) + Expand(roots, b, axis, depth)
  {
    if a == [] {
      assert a + b == b;
    } else {
      assert (a + b)[1..] == a[1..] + b;
      ExpandConcat(roots, a[1..], b, axis, depth);
    }
  }

  lemma {:induction false} FollowConcat(roots: seq<Node>, a: seq<Place>, b: seq<Place>, steps: seq<(string, Option<nat>)>)
    requires AllPlaces(roots, a) && AllPlaces(roots, b)
    ensures Follow(roots, a + b, steps) == Follow(roots, a, steps) + Follow(roots, b, steps)
    decreases |steps|
  {
    if steps != [] {
      var (axis, depth) := steps[0];
      ExpandConcat(roots, a, b, axis, depth);
      FollowConcat(roots, Expand(roots, a, axis, depth), Expand(roots, b, axis, depth), steps[1..]);
    }
  }

  lemma FollowFromOne(roots: seq<Node>, a: Place, path: seq<Segment>)
    requires Valid(roots, a) && path != []
    ensures AllPlaces(roots, AxisNodes(roots, a, StepOf(path[0]).0, StepOf(path[0]).1))
    ensures Follow(roots, [a], StepsOf(path))
         == Follow(roots, AxisNodes(roots, a, StepOf(path[0]).0, StepOf(path[0]).1), StepsOf(path[1..]))
  {
    var (axis, depth) := StepOf(path[0]);
    AxisNodesValid(roots, a, axis, depth);
    assert StepsOf(path)[0] == (axis, depth) && StepsOf(path)[1..] == StepsOf(path[1..]);
    ExpandOne(roots, a, axis, depth);
  }

  lemma ExpandOne(roots: seq<Node>, a: Place, axis: string, depth: Option<nat>)
    requires Valid(roots, a)
    ensures Expand(roots, [a], axis, depth) == AxisNodes(roots, a, axis, depth)
  {
    assert Expand(roots, [a][1..], axis, depth) == [];
  }

  lemma {:induction false} EndsFollow(roots: seq<Node>, ps: seq<Place>, path: seq<Segment>)
    requires AllPlaces(roots, ps)
    ensures NonEmptyRoutes(Trails(roots, ps, path))
    ensures Ends(Trails(roots, ps, path)) == Follow(roots, ps, StepsOf(path))
    decreases |path|, |ps|
  {
    TrailsNonEmpty(roots, ps, path);
    if ps == [] {
      FollowNone(roots, StepsOf(path));
    } else {
      EndsFollowFrom(roots, ps[0], path);
      EndsFollow(roots, ps[1..], path);
      EndsConcat(TrailsFrom(roots, ps[0], path), Trails(roots, ps[1..], path));
      assert [ps[0]] + ps[1..] == ps;
      FollowConcat(roots, [ps[0]], ps[1..], StepsOf(path));
    }
  }

  lemma {:induction false} EndsFollowFrom(roots: seq<Node>, a: Place, path: seq<Segment>)
    requires Valid(roots, a)
    ensures NonEmptyRoutes(TrailsFrom(roots, a, path))
    ensures Ends(TrailsFrom(roots, a, path)) == Follow(roots, [a], StepsOf(path))
    decreases |path|, 0
  {
    TrailsFromNonEmpty(roots, a, path);
    if path != [] {
      var next := AxisNodes(roots, a, StepOf(path[0]).0, StepOf(path[0]).1);
      FollowFromOne(roots, a, path);
      EndsFollow(roots, next, path[1..]);
      EndsPrepend(a, Trails(roots, next, path[1..]));
    }
  }

  lemma EndsConcat(a: seq<Route>, b: seq<Route>)
    requires NonEmptyRoutes(a) && NonEmptyRoutes(b)
    ensures NonEmptyRoutes(a + b) && Ends(a + b) == Ends(a) + Ends(b)
  {
  }

  lemma EndsPrepend(a: Place, rs: seq<Route>)
    requires NonEmptyRoutes(rs)
    ensures NonEmptyRoutes(Prepend(a, rs)) && Ends(Prepend(a, rs)) == Ends(rs)
  {
  }

  lemma {:induction false} FollowNone(roots: seq<Node>, steps: seq<(string, Option<nat>)>)
    ensures Follow(roots, [], steps) == []
  {
    if steps != [] {
      FollowNone(roots, steps[1..]);
    }
  }

  // ---------- the list is in route order ----------

  predicate InOrder(rs: seq<Route>) {
    forall i, j :: 0 <= i < j < |rs| ==> RouteBefore(rs[i], rs[j])
  }

  lemma AxisNodesOrdered(roots: seq<Node>, a: Place, seg: Segment)
    requires Valid(roots, a) && ValidSegment(seg) && !seg.axis.FollowingSibling? && !seg.axis.PrecedingSibling?
    ensures Ordered(AxisNodes(roots, a, StepOf(seg).0, StepOf(seg).1))
  {
    if seg.axis.Descendant? {
      WalkOrdered(roots, a, 0);
    } else if seg.axis.Child? {
      RangeOrdered(a, |NodeAt(roots, a).children|);
    }
  }

  lemma RangeOrdered(p: Place, n: nat)
    ensures Ordered(Range(p, 0, n))
  {
    forall i, j | 0 <= i < j < n
      ensures Before(Range(p, 0, n)[i], Range(p, 0, n)[j])
    {
      assert (p + [i])[..|p|] == p == (p + [j])[..|p|];
    }
  }

  lemma InOrderConcat(a: seq<Route>, b: seq<Route>)
    requires InOrder(a) && InOrder(b)
    requires forall i, j :: 0 <= i < |a| && 0 <= j < |b| ==> RouteBefore(a[i], b[j])
    ensures InOrder(a + b)
  {
  }

  lemma PrependInOrder(a: Place, rs: seq<Route>)
    requires InOrder(rs)
    ensures InOrder(Prepend(a, rs))
  {
    forall i, j | 0 <= i < j < |rs|
      ensures RouteBefore([a] + rs[i], [a] + rs[j])
    {
      assert ([a] + rs[i])[1..] == rs[i] && ([a] + rs[j])[1..] == rs[j];
    }
  }

  lemma {:induction false} TrailsInOrder(roots: seq<Node>, ps: seq<Place>, path: seq<Segment>)
    requires AllPlaces(roots, ps) && Ordered(ps) && ValidPath(path) && SiblingFree(path)
    ensures InOrder(Trails(roots, ps, path))
    decreases |path|, |ps|
  {
    if ps != [] {
      var first, rest := TrailsFrom(roots, ps[0], path), Trails(roots, ps[1..], path);
      TrailsFromInOrder(roots, ps[0], path);
      TrailsInOrder(roots, ps[1..], path);
      forall i, j | 0 <= i < |first| && 0 <= j < |rest|
        ensures RouteBefore(first[i], rest[j])
      {
        TrailsFromExact(roots, ps[0], path, first[i]);
        TrailsExact(roots, ps[1..], path, rest[j]);
        var k :| 0 <= k < |ps| - 1 && ps[1..][k] == rest[j][0];
        assert ps[k + 1] == rest[j][0];
      }
      InOrderConcat(first, rest);
    }
  }

  lemma {:induction false} TrailsFromInOrder(roots: seq<Node>, a: Place, path: seq<Segment>)
    requires Valid(roots, a) && ValidPath(path) && SiblingFree(path)
    ensures InOrder(TrailsFrom(roots, a, path))
    decreases |path|, 0
  {
    if path != [] {
      var (axis, depth) := StepOf(path[0]);
      AxisNodesValid(roots, a, axis, depth);
      AxisNodesOrdered(roots, a, path[0]);
      TrailsInOrder(roots, AxisNodes(roots, a, axis, depth), path[1..]);
      PrependInOrder(a, Trails(roots, AxisNodes(roots, a, axis, depth), path[1..]));
    }
  }

  // ---------- filtering and removing duplicates ----------

  function KeepTrails(roots: seq<Node>, rs: seq<Route>, qs: seq<Query>, search: Search): seq<Route>
    requires NonEmptyRoutes(rs) && AllPlaces(roots, Ends(rs))
  {
    if rs == [] then []
    else
      assert Ends(rs)[0] == End(rs[0]);
      assert Ends(rs)[1..] == Ends(rs[1..]);
      (if MatchesAll(NodeAt(roots, End(rs[0])), qs, search) then [rs[0]] else []) + KeepTrails(roots, rs[1..], qs, search)
  }

  lemma {:induction false} KeepTrailsExact(roots: seq<Node>, rs: seq<Route>, qs: seq<Query>, search: Search, r: Route)
    requires NonEmptyRoutes(rs) && AllPlaces(roots, Ends(rs))
    ensures r in KeepTrails(roots, rs, qs, search)
       <==> r in rs && r != [] && Valid(roots, End(r)) && MatchesAll(NodeAt(roots, End(r)), qs, search)
  {
    if rs != [] {
      assert Ends(rs)[0] == End(rs[0]) && Ends(rs)[1..] == Ends(rs[1..]);
      KeepTrailsExact(roots, rs[1..], qs, search, r);
      assert rs == [rs[0]] + rs[1..];
    }
  }

  lemma {:induction false} KeepTrailsEnds(roots: seq<Node>, rs: seq<Route>, qs: seq<Query>, search: Search)
    requires NonEmptyRoutes(rs) && AllPlaces(roots, Ends(rs))
    ensures NonEmptyRoutes(KeepTrails(roots, rs, qs, search))
    ensures Ends(KeepTrails(roots, rs, qs, search)) == Keep(roots, Ends(rs), qs, search)
  {
    if rs != [] {
      var rest := KeepTrails(roots, rs[1..], qs, search);
      assert Ends(rs)[0] == End(rs[0]) && Ends(rs)[1..] == Ends(rs[1..]);
      KeepTrailsEnds(roots, rs[1..], qs, search);
      if MatchesAll(NodeAt(roots, End(rs[0])), qs, search) {
        EndsConcat([rs[0]], rest);
        assert Ends([rs[0]]) == [End(rs[0])];
      } else {
        assert KeepTrails(roots, rs, qs, search) == [] + rest == rest;
      }
    }
  }

  lemma {:induction false} KeepTrailsInOrder(roots: seq<Node>, rs: seq<Route>, qs: seq<Query>, search: Search)
    requires NonEmptyRoutes(rs) && AllPlaces(roots, Ends(rs)) && InOrder(rs)
    ensures InOrder(KeepTrails(roots, rs, qs, search))
  {
    if rs != [] {
      assert Ends(rs)[0] == End(rs[0]) && Ends(rs)[1..] == Ends(rs[1..]);
      KeepTrailsInOrder(roots, rs[1..], qs, search);
      var rest := KeepTrails(roots, rs[1..], qs, search);
      forall j | 0 <= j < |rest|
        ensures RouteBefore(rs[0], rest[j])
      {
        KeepTrailsExact(roots, rs[1..], qs, search, rest[j]);
        var k :| 0 <= k < |rs| - 1 && rs[1..][k] == rest[j];
        assert rs[k + 1] == rest[j];
      }
      InOrderConcat([rs[0]], rest);
    }
  }

  /** `t` occurs before `u` does for the first time. */
  ghost predicate Earlier<T>(ps: seq<T>, t: T, u: T) {
    exists p :: 0 <= p < |ps| && ps[p] == t && forall q :: 0 <= q < |ps| && ps[q] == u ==> p < q
  }

  /** Removing duplicates lists the elements in the order of their first occurrences. */
  lemma {:induction false} DedupeInOrder<T>(ps: seq<T>, seen: set<T>, i: nat, j: nat)
    requires i < j < |Dedupe(ps, seen)|
    ensures Earlier(ps, Dedupe(ps, seen)[i], Dedupe(ps, seen)[j])
  {
    var r := Dedupe(ps, seen);
    var rest, more := ps[1..], if ps[0] in seen then seen else seen + {ps[0]};
    var tail := Dedupe(rest, more);
    if ps[0] in seen {
      DedupeInOrder(rest, more, i, j);
      EarlierBehind(ps, r[i], r[j]);
    } else {
      assert r[j] == tail[j - 1] && tail[j - 1] in tail;
      if i == 0 {
        assert ps[0] == r[0] && r[j] != ps[0];
      } else {
        assert r[i] == tail[i - 1];
        DedupeInOrder(rest, more, i - 1, j - 1);
        EarlierBehind(ps, r[i], r[j]);
      }
    }
  }

  lemma EarlierBehind<T>(ps: seq<T>, t: T, u: T)
    requires ps != [] && Earlier(ps[1..], t, u) && ps[0] != u
    ensures Earlier(ps, t, u)
  {
    var p :| 0 <= p < |ps| - 1 && ps[1..][p] == t && forall q :: 0 <= q < |ps| - 1 && ps[1..][q] == u ==> p < q;
    forall q | 0 <= q < |ps| && ps[q] == u
      ensures p + 1 < q
    {
      assert ps[1..][q - 1] == u;
    }
    assert ps[p + 1] == t;
  }
}
