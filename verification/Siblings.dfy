/** The sibling axes: what is printed for them finds nothing, on every screen. */
module Siblings {
  import opened Text
  import opened Locator
  import opened XPathRoundTrip
  import opened Selector
  import opened Screen
  import opened Denotation
  import opened Routes
  import opened Meaning

  /** An axis the search does not know. */
  predicate Unknown(axis: string) {
    && axis != "parent" && axis != "ancestor" && axis != "child" && axis != "descendant"
    && axis != "following_sibling" && axis != "preceding_sibling"
  }

  lemma SiblingUnknown(seg: Segment)
    requires seg.axis.FollowingSibling? || seg.axis.PrecedingSibling?
    ensures Unknown(StepOf(seg).0)
  {
    assert "following-sibling"[9] != "following_sibling"[9] && "preceding-sibling"[9] != "preceding_sibling"[9];
  }

  lemma NoSuchAxis(roots: seq<Node>, p: Place, axis: string, depth: Option<nat>)
    requires Valid(roots, p) && Unknown(axis)
    ensures AxisNodes(roots, p, axis, depth) == []
  {
  }

  lemma {:induction false} ExpandUnknown(roots: seq<Node>, ps: seq<Place>, axis: string, depth: Option<nat>)
    requires AllPlaces(roots, ps) && Unknown(axis)
    ensures Expand(roots, ps, axis, depth) == []
  {
    if ps != [] {
      NoSuchAxis(roots, ps[0], axis, depth);
      ExpandUnknown(roots, ps[1..], axis, depth);
    }
  }

  lemma {:induction false} FollowSiblings(roots: seq<Node>, ps: seq<Place>, path: seq<Segment>)
    requires AllPlaces(roots, ps) && !SiblingFree(path)
    ensures Follow(roots, ps, StepsOf(path)) == []
    decreases |path|
  {
    var (axis, depth) := StepOf(path[0]);
    assert StepsOf(path)[1..] == StepsOf(path[1..]);
    if path[0].axis.FollowingSibling? || path[0].axis.PrecedingSibling? {
      SiblingUnknown(path[0]);
      ExpandUnknown(roots, ps, axis, depth);
      FollowNone(roots, StepsOf(path[1..]));
    } else {
      var i :| 0 <= i < |path| && (path[i].axis.FollowingSibling? || path[i].axis.PrecedingSibling?);
      assert path[1..][i - 1] == path[i];
      FollowSiblings(roots, Expand(roots, ps, axis, depth), path[1..]);
    }
  }

  /** A path with a sibling axis finds nothing: the axis is printed with a hyphen
      and looked up with an underscore. So the result is right exactly when the
      alternative denotes no node. */
  lemma SiblingsFindNothing(roots: seq<Node>, alt: Alternative, compiles: string -> bool, search: Search)
    requires ValidAlternative(alt, compiles) && !SiblingFree(alt.path)
    requires AllTyped(alt.anchor) && AllTyped(alt.target) && DelimiterFree(alt)
    ensures BuildSelector(alt).Some?
    ensures FindElements(roots, BuildSelector(alt).value, search) == Some([])
    ensures Finds(FindElements(roots, BuildSelector(alt).value, search), roots, alt, search)
       <==> forall t :: !Denotes(roots, alt, t, search, true)
  {
    RelativeIsPrintable(alt, compiles);
    RelativeRoundTrip(alt);
    EvalSiblings(roots, alt, search);
    NothingFound(roots, alt, search);
  }

  lemma EvalSiblings(roots: seq<Node>, alt: Alternative, search: Search)
    requires !SiblingFree(alt.path)
    ensures EvalXPath(roots, MeantXPath(alt), search) == []
  {
    WalkValid(roots, [], 0);
    FollowSiblings(roots, Keep(roots, Flatten(roots), MeantAll(alt.anchor), search), alt.path);
  }

  lemma NothingFound(roots: seq<Node>, alt: Alternative, search: Search)
    requires AllTyped(alt.anchor) && AllTyped(alt.target) && ValidPath(alt.path)
    ensures Finds(Some([]), roots, alt, search) <==> forall t :: !Denotes(roots, alt, t, search, UsesXPath(alt))
  {
    assert forall t: Place :: t !in [];
  }

  // ---------- a screen on which any path can be followed ----------

  /** `w` copies of the node, each above such copies, `h` levels deep. */
  function Uniform(n: Node, w: nat, h: nat): seq<Node>
    decreases h
  {
    if h == 0 then [] else seq(w, _ => n.(children := Uniform(n, w, h - 1)))
  }

  predicate Within(p: Place, w: nat, h: nat) {
    0 < |p| <= h && forall i :: 0 <= i < |p| ==> p[i] < w
  }

  lemma {:induction false} UniformValid(n: Node, w: nat, h: nat, p: Place)
    requires Within(p, w, h)
    ensures Valid(Uniform(n, w, h), p)
    ensures exists kids :: NodeAt(Uniform(n, w, h), p) == n.(children := kids)
    decreases h
  {
    var roots := Uniform(n, w, h);
    assert roots[p[0]] == n.(children := Uniform(n, w, h - 1));
    if |p| > 1 {
      UniformValid(n, w, h - 1, p[1..]);
    }
  }

  lemma LooksAtNode(n: Node, kids: seq<Node>, c: Condition, search: Search)
    requires Typed(c)
    ensures Satisfies(n.(children := kids), c, search, true) <==> Satisfies(n, c, search, true)
  {
    var m, key := n.(children := kids), NodeKey(c.attribute);
    assert Shown(m, key) == Shown(n, key) && (CountsAsTrue(m, key) <==> CountsAsTrue(n, key));
  }

  /** A condition looks only at the node itself. */
  lemma SatisfiesAnywhere(n: Node, kids: seq<Node>, cs: seq<Condition>, search: Search)
    requires AllTyped(cs)
    ensures SatisfiesAll(n.(children := kids), cs, search, true) <==> SatisfiesAll(n, cs, search, true)
  {
    forall i | 0 <= i < |cs|
      ensures Satisfies(n.(children := kids), cs[i], search, true) <==> Satisfies(n, cs[i], search, true)
    {
      LooksAtNode(n, kids, cs[i], search);
    }
  }

  /** How many levels up the path goes in all. */
  function Up(path: seq<Segment>): nat
    requires ValidPath(path)
  {
    if path == [] then 0
    else (if path[0].axis.Ancestor? || path[0].axis.Parent? then path[0].depth.value else 0) + Up(path[1..])
  }

  /** Room for the rest of the path in every direction. */
  predicate Roomy(p: Place, path: seq<Segment>, w: nat, h: nat)
    requires ValidPath(path)
  {
    && |p| >= Up(path) + 2 && |p| + |path| <= h && w >= 2 * |path| + 1
    && forall i :: 0 <= i < |p| ==> |path| <= p[i] && p[i] + |path| < w
  }

  /** A related place with room for what follows. */
  function NextPlace(p: Place, seg: Segment, w: nat): Place
    requires ValidSegment(seg) && p != []
    requires (seg.axis.Ancestor? || seg.axis.Parent?) ==> |p| > seg.depth.value
    requires seg.axis.PrecedingSibling? ==> p[|p| - 1] > 0
  {
    match seg.axis
    case Ancestor => p[..|p| - seg.depth.value]
    case Parent => p[..|p| - seg.depth.value]
    case Child => p + [w / 2]
    case Descendant => p + [w / 2]
    case FollowingSibling => p[..|p| - 1] + [p[|p| - 1] + 1]
    case PrecedingSibling => p[..|p| - 1] + [p[|p| - 1] - 1]
  }

  lemma NextIsRelated(p: Place, seg: Segment, path: seq<Segment>, w: nat, h: nat)
    requires ValidSegment(seg) && ValidPath(path) && Roomy(p, [seg] + path, w, h)
    ensures ([seg] + path)[1..] == path
    ensures (seg.axis.Ancestor? || seg.axis.Parent?) ==> |p| > seg.depth.value
    ensures Related(seg, p, NextPlace(p, seg, w)) && Roomy(NextPlace(p, seg, w), path, w, h)
  {
    assert ([seg] + path)[1..] == path;
    var q := NextPlace(p, seg, w);
    if seg.axis.FollowingSibling? || seg.axis.PrecedingSibling? {
      assert q[..|q| - 1] == p[..|p| - 1];
    } else if seg.axis.Child? || seg.axis.Descendant? {
      assert q[..|p|] == p;
    }
  }

  lemma {:induction false} SomeRoute(n: Node, w: nat, h: nat, p: Place, path: seq<Segment>) returns (route: Route)
    requires ValidPath(path) && Roomy(p, path, w, h)
    ensures Leads(Uniform(n, w, h), path, route) && route[0] == p
    ensures Within(p, w, h) && Within(End(route), w, h)
    decreases |path|
  {
    UniformValid(n, w, h, p);
    if path == [] {
      route := [p];
    } else {
      assert path == [path[0]] + path[1..];
      NextIsRelated(p, path[0], path[1..], w, h);
      var rest := SomeRoute(n, w, h, NextPlace(p, path[0], w), path[1..]);
      route := [p] + rest;
      assert route[1..] == rest;
    }
  }

  /** For every valid alternative with a sibling axis whose conditions some node meets
      there is a screen with a node that is denoted and not found. */
  lemma SiblingsMiss(n: Node, alt: Alternative, compiles: string -> bool, search: Search) returns (roots: seq<Node>, t: Place)
    requires ValidAlternative(alt, compiles) && !SiblingFree(alt.path)
    requires AllTyped(alt.anchor) && AllTyped(alt.target) && DelimiterFree(alt)
    requires SatisfiesAll(n, alt.anchor, search, true) && SatisfiesAll(n, alt.target, search, true)
    ensures BuildSelector(alt).Some? && FindElements(roots, BuildSelector(alt).value, search) == Some([])
    ensures Denotes(roots, alt, t, search, true)
  {
    var m := |alt.path|;
    var w, start := 2 * m + 1, seq(Up(alt.path) + 2, _ => m);
    var h := |start| + m;
    roots := Uniform(n, w, h);
    var route := SomeRoute(n, w, h, start, alt.path);
    t := End(route);
    UniformValid(n, w, h, start);
    UniformValid(n, w, h, t);
    var k1 :| NodeAt(roots, start) == n.(children := k1);
    var k2 :| NodeAt(roots, t) == n.(children := k2);
    SatisfiesAnywhere(n, k1, alt.anchor, search);
    SatisfiesAnywhere(n, k2, alt.target, search);
    assert IsRoute(roots, alt, route, search, true);
    SiblingsFindNothing(roots, alt, compiles, search);
  }

  /** Such an alternative exists: a text next to the same text. */
  lemma SiblingMissed(search: Search) returns (roots: seq<Node>, alt: Alternative, t: Place)
    ensures ValidAlternative(alt, (r: string) => true) && !SiblingFree(alt.path)
    ensures AllTyped(alt.anchor) && AllTyped(alt.target)
    ensures BuildSelector(alt).Some? && FindElements(roots, BuildSelector(alt).value, search) == Some([])
    ensures Denotes(roots, alt, t, search, true)
  {
    var isX := Condition(TextAttr, Equals, Value.Str("x"));
    var n := Node("", map["text" := PText("x")], "", []);
    alt := Alternative([isX], [Segment(FollowingSibling, None)], [isX]);
    assert Satisfies(n, isX, search, true) && alt.path[0].axis.FollowingSibling?;
    roots, t := SiblingsMiss(n, alt, (r: string) => true, search);
  }
}
