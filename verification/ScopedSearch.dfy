/** The two-stage search for a class below an anchor
    (agent/executor/smart_locator.py, `_find_scoped_descendant`), compared with
    evaluating the single relative XPath of the same alternative. */
module ScopedSearch {
  import opened Text
  import opened Locator
  import opened XPathQuery
  import opened XPathRoundTrip
  import opened Selector
  import opened Screen
  import opened Denotation
  import opened Routes
  import opened Meaning

  /** `_is_scoped_descendant`. */
  predicate IsScoped(alt: Alternative) {
    && alt.anchor != [] && |alt.path| == 1 && alt.path[0] == Segment(Descendant, None)
    && |alt.target| == 1 && alt.target[0].attribute.ClassName? && alt.target[0].operator.Equals?
  }

  /** `find_elements_in_element(anchor, "class_name", value)`. */
  function ClassMatches(roots: seq<Node>, ps: seq<Place>, value: string): (r: seq<Place>)
    requires AllPlaces(roots, ps)
    ensures AllPlaces(roots, r)
  {
    if ps == [] then []
    else (if ClassOrName(NodeAt(roots, ps[0]), value) then [ps[0]] else []) + ClassMatches(roots, ps[1..], value)
  }

  /** The matches below each anchor, one anchor after the other. */
  function BelowAnchors(roots: seq<Node>, anchors: seq<Place>, value: string): (r: seq<Place>)
    requires AllPlaces(roots, anchors)
    ensures AllPlaces(roots, r)
  {
    if anchors == [] then []
    else
      WalkValid(roots, anchors[0], 0);
      ClassMatches(roots, Descendants(roots, anchors[0]), value) + BelowAnchors(roots, anchors[1..], value)
  }

  /** Keeps the first of all elements with the same identity. */
  function DedupeById(roots: seq<Node>, ps: seq<Place>, seen: set<string>): seq<Place>
    requires AllPlaces(roots, ps)
  {
    if ps == [] then []
    else
      var id := NodeAt(roots, ps[0]).id;
      if id in seen then DedupeById(roots, ps[1..], seen)
      else [ps[0]] + DedupeById(roots, ps[1..], seen + {id})
  }

  function SeenAfter(roots: seq<Node>, ps: seq<Place>, seen: set<string>): set<string>
    requires AllPlaces(roots, ps)
  {
    if ps == [] then seen else SeenAfter(roots, ps[1..], seen + {NodeAt(roots, ps[0]).id})
  }

  lemma {:induction false} DedupeByIdConcat(roots: seq<Node>, a: seq<Place>, b: seq<Place>, seen: set<string>)
    requires AllPlaces(roots, a) && AllPlaces(roots, b)
    ensures DedupeById(roots, a + b, seen) == DedupeById(roots, a, seen) + DedupeById(roots, b, SeenAfter(roots, a, seen))
    ensures SeenAfter(roots, a + b, seen) == SeenAfter(roots, b, SeenAfter(roots, a, seen))
  {
    if a == [] {
      assert a + b == b;
    } else {
      var id := NodeAt(roots, a[0]).id;
      assert (a + b)[1..] == a[1..] + b;
      DedupeByIdConcat(roots, a[1..], b, seen + {id});
      if id in seen {
        assert seen + {id} == seen;
      }
    }
  }

  /** The inner loop: the matches below one anchor. */
  method AddMatches(roots: seq<Node>, found: seq<Place>, matches: seq<Place>, seen: set<string>)
    returns (matches': seq<Place>, seen': set<string>)
    requires AllPlaces(roots, found)
    ensures matches' == matches + DedupeById(roots, found, seen) && seen' == SeenAfter(roots, found, seen)
  {
    matches', seen' := matches, seen;
    assert found[0..] == found;
    for i := 0 to |found|
      invariant matches' + DedupeById(roots, found[i..], seen') == matches + DedupeById(roots, found, seen)
      invariant SeenAfter(roots, found[i..], seen') == SeenAfter(roots, found, seen)
    {
      var id := NodeAt(roots, found[i]).id;
      ghost var rest := found[i..];
      assert rest[1..] == found[i + 1..];
      if id !in seen' {
        var more := DedupeById(roots, found[i + 1..], seen' + {id});
        assert matches' + ([found[i]] + more) == (matches' + [found[i]]) + more;
        seen' := seen' + {id};
        matches' := matches' + [found[i]];
      } else {
        assert seen' + {id} == seen';
      }
    }
  }

  /** `_find_scoped_descendant`; `None` when the anchor selector cannot be parsed. */
  method FindScoped(roots: seq<Node>, alt: Alternative, search: Search) returns (r: Option<seq<Place>>)
    requires IsScoped(alt) && AllPrintable(alt.anchor) && AllTyped(alt.target)
    ensures BuildXPath(alt.anchor).Some?
    ensures r == Scoped(roots, FindElements(roots, XPathSelector(BuildXPath(alt.anchor).value), search), alt.target[0].value.text)
  {
    XPathRoundTrip.XPathRoundTrip(alt.anchor);
    var anchors := FindElements(roots, XPathSelector(BuildXPath(alt.anchor).value), search);
    if anchors.None? {
      return None;
    }
    FoundValid(roots, XPathSelector(BuildXPath(alt.anchor).value), search);
    var matches := SearchBelow(roots, anchors.value, alt.target[0].value.text);
    r := Some(matches);
  }

  /** The outer loop: one anchor after the other, sharing the identities seen. */
  method SearchBelow(roots: seq<Node>, anchors: seq<Place>, value: string) returns (matches: seq<Place>)
    requires AllPlaces(roots, anchors)
    ensures matches == DedupeById(roots, BelowAnchors(roots, anchors, value), {})
  {
    var seen := {};
    matches := [];
    assert anchors[0..] == anchors;
    for i := 0 to |anchors|
      invariant matches + DedupeById(roots, BelowAnchors(roots, anchors[i..], value), seen)
             == DedupeById(roots, BelowAnchors(roots, anchors, value), {})
    {
      WalkValid(roots, anchors[i], 0);
      var found := ClassMatches(roots, Descendants(roots, anchors[i]), value);
      ghost var later := BelowAnchors(roots, anchors[i + 1..], value);
      assert anchors[i..][1..] == anchors[i + 1..];
      DedupeByIdConcat(roots, found, later, seen);
      AppendAssociates(matches, DedupeById(roots, found, seen), DedupeById(roots, later, SeenAfter(roots, found, seen)));
      matches, seen := AddMatches(roots, found, matches, seen);
    }
  }

  lemma AppendAssociates(a: seq<Place>, b: seq<Place>, c: seq<Place>)
    ensures a + (b + c) == (a + b) + c
  {
  }

  /** What the two stages compute, given the anchors found. */
  function Scoped(roots: seq<Node>, anchors: Option<seq<Place>>, value: string): Option<seq<Place>> {
    if anchors.None? || !AllPlaces(roots, anchors.value) then None
    else Some(DedupeById(roots, BelowAnchors(roots, anchors.value, value), {}))
  }

  lemma FoundValid(roots: seq<Node>, s: Selector, search: Search)
    ensures var r := FindElements(roots, s, search); r.Some? ==> AllPlaces(roots, r.value)
  {
    WalkValid(roots, [], 0);
    if s.XPathSelector? && ParseXPath(s.text).Some? {
      var x := ParseXPath(s.text).value;
      var reached := Follow(roots, Keep(roots, Flatten(roots), x.root, search), x.steps);
      var kept := if x.target == [] then reached else Keep(roots, reached, x.target, search);
      var r := Dedupe(kept, {});
      forall i | 0 <= i < |r|
        ensures Valid(roots, r[i])
      {
        assert r[i] in kept;
      }
    }
  }

  // ---------- comparison with the single XPath ----------

  lemma {:induction false} KeepConcat(roots: seq<Node>, a: seq<Place>, b: seq<Place>, qs: seq<Query>, search: Search)
    requires AllPlaces(roots, a) && AllPlaces(roots, b)
    ensures Keep(roots, a + b, qs, search) == Keep(roots, a, qs, search) + Keep(roots, b, qs, search)
  {
    if a == [] {
      assert a + b == b;
    } else {
      assert (a + b)[1..] == a[1..] + b;
      KeepConcat(roots, a[1..], b, qs, search);
    }
  }

  lemma {:induction false} ClassMatchesIsKeep(roots: seq<Node>, ps: seq<Place>, c: Condition, search: Search)
    requires AllPlaces(roots, ps) && Typed(c) && c.attribute.ClassName? && c.operator.Equals?
    ensures ClassMatches(roots, ps, c.value.text) == Keep(roots, ps, MeantAll([c]), search)
  {
    if ps != [] {
      MatchesMeantAll(NodeAt(roots, ps[0]), [c], search);
      ClassMatchesIsKeep(roots, ps[1..], c, search);
    }
  }

  lemma {:induction false} BelowIsExpand(roots: seq<Node>, anchors: seq<Place>, c: Condition, search: Search)
    requires AllPlaces(roots, anchors) && Typed(c) && c.attribute.ClassName? && c.operator.Equals?
    ensures BelowAnchors(roots, anchors, c.value.text)
         == Keep(roots, Expand(roots, anchors, "descendant", None), MeantAll([c]), search)
  {
    if anchors != [] {
      WalkValid(roots, anchors[0], 0);
      BelowIsExpand(roots, anchors[1..], c, search);
      ClassMatchesIsKeep(roots, Descendants(roots, anchors[0]), c, search);
      KeepConcat(roots, Descendants(roots, anchors[0]), Expand(roots, anchors[1..], "descendant", None), MeantAll([c]), search);
    }
  }

  predicate DistinctIds(roots: seq<Node>, ps: seq<Place>)
    requires AllPlaces(roots, ps)
  {
    forall i, j :: 0 <= i < |ps| && 0 <= j < |ps| && NodeAt(roots, ps[i]).id == NodeAt(roots, ps[j]).id ==> i == j
  }

  lemma {:induction false} DedupeByIdDistinct(roots: seq<Node>, ps: seq<Place>, seen: set<string>)
    requires AllPlaces(roots, ps)
    ensures var r := DedupeById(roots, ps, seen); AllPlaces(roots, r) && DistinctIds(roots, r)
    ensures forall p <- DedupeById(roots, ps, seen) :: Valid(roots, p) && NodeAt(roots, p).id !in seen
  {
    if ps != [] {
      var id := NodeAt(roots, ps[0]).id;
      DedupeByIdDistinct(roots, ps[1..], seen);
      DedupeByIdDistinct(roots, ps[1..], seen + {id});
      if id !in seen {
        var rest := DedupeById(roots, ps[1..], seen + {id});
        assert forall i :: 0 <= i < |rest| ==> rest[i] in rest;
      }
    }
  }

  /** Where no two places share an identity, both ways of removing duplicates agree. */
  lemma {:induction false} DedupeAgrees(roots: seq<Node>, ps: seq<Place>, seen: set<Place>, ids: set<string>)
    requires AllPlaces(roots, ps) && forall p <- seen :: Valid(roots, p)
    requires ids == set p <- seen :: NodeAt(roots, p).id
    requires forall p, q :: (p in ps || p in seen) && q in ps && NodeAt(roots, p).id == NodeAt(roots, q).id ==> p == q
    ensures DedupeById(roots, ps, ids) == Dedupe(ps, seen)
  {
    if ps != [] {
      var p := ps[0];
      assert p in ps;
      if p !in seen {
        assert ids + {NodeAt(roots, p).id} == set q <- seen + {p} :: NodeAt(roots, q).id;
        DedupeAgrees(roots, ps[1..], seen + {p}, ids + {NodeAt(roots, p).id});
      } else {
        DedupeAgrees(roots, ps[1..], seen, ids);
      }
    }
  }

  lemma DedupeAgreesExactly(roots: seq<Node>, ps: seq<Place>)
    requires AllPlaces(roots, ps)
    ensures AllPlaces(roots, Dedupe(ps, {}))
    ensures DedupeById(roots, ps, {}) == Dedupe(ps, {}) <==> DistinctIds(roots, Dedupe(ps, {}))
  {
    var d := Dedupe(ps, {});
    assert forall i :: 0 <= i < |d| ==> d[i] in ps;
    DedupeExact(ps, {});
    DedupeByIdDistinct(roots, ps, {});
    if DistinctIds(roots, d) {
      forall p, q | p in ps && q in ps && NodeAt(roots, p).id == NodeAt(roots, q).id
        ensures p == q
      {
        var i :| 0 <= i < |d| && d[i] == p;
        var j :| 0 <= j < |d| && d[j] == q;
      }
      DedupeAgrees(roots, ps, {}, {});
    }
  }

  /** The two-stage search returns the same list, in the same order, as the single
      relative XPath, exactly when no two of the nodes found share an identity. */
  lemma ScopedIsRelative(roots: seq<Node>, alt: Alternative, compiles: string -> bool, search: Search)
    requires IsScoped(alt) && ValidAlternative(alt, compiles)
    requires AllTyped(alt.anchor) && AllTyped(alt.target) && DelimiterFree(alt)
    ensures AllPrintable(alt.anchor) && BuildXPath(alt.anchor).Some? && BuildSelector(alt).Some?
    ensures var relative := FindElements(roots, BuildSelector(alt).value, search);
            var scoped := Scoped(roots, FindElements(roots, XPathSelector(BuildXPath(alt.anchor).value), search), alt.target[0].value.text);
            && relative.Some? && scoped.Some? && AllPlaces(roots, relative.value)
            && (scoped == relative <==> DistinctIds(roots, relative.value))
  {
    RelativeIsPrintable(alt, compiles);
    RelativeMeaning(roots, alt, compiles, search);
    XPathRoundTrip.XPathRoundTrip(alt.anchor);
    FoundByEval(roots, BuildXPath(alt.anchor).value, XPath(MeantAll(alt.anchor), [], []), search);
    ScopedEval(roots, alt, search);
  }

  lemma FoundByEval(roots: seq<Node>, text: string, x: XPath, search: Search)
    requires ParseXPath(text) == Some(x)
    ensures FindElements(roots, XPathSelector(text), search) == Some(EvalXPath(roots, x, search))
  {
    if roots == [] {
      FollowNone(roots, x.steps);
    }
  }

  /** The same comparison for the queries the two texts stand for. */
  lemma ScopedEval(roots: seq<Node>, alt: Alternative, search: Search)
    requires IsScoped(alt) && AllTyped(alt.anchor) && AllTyped(alt.target)
    ensures var relative := EvalXPath(roots, MeantXPath(alt), search);
            var anchors := EvalXPath(roots, XPath(MeantAll(alt.anchor), [], []), search);
            && AllPlaces(roots, relative) && AllPlaces(roots, anchors)
            && (DedupeById(roots, BelowAnchors(roots, anchors, alt.target[0].value.text), {}) == relative
                <==> DistinctIds(roots, relative))
  {
    var c := alt.target[0];
    assert alt.target == [c];
    WalkValid(roots, [], 0);
    EvalOrdered(roots, XPath(MeantAll(alt.anchor), [], []), search);
    var start := Keep(roots, Flatten(roots), MeantAll(alt.anchor), search);
    BelowIsExpand(roots, start, c, search);
    RelativeEval(roots, alt, search);
    DedupeAgreesExactly(roots, BelowAnchors(roots, start, c.value.text));
  }

  lemma RelativeEval(roots: seq<Node>, alt: Alternative, search: Search)
    requires IsScoped(alt)
    ensures AllPlaces(roots, Flatten(roots))
    ensures EvalXPath(roots, MeantXPath(alt), search)
         == Dedupe(Keep(roots, Expand(roots, Keep(roots, Flatten(roots), MeantAll(alt.anchor), search), "descendant", None),
                        MeantAll(alt.target), search), {})
  {
    WalkValid(roots, [], 0);
    ScopedSteps(alt);
    FollowOne(roots, Keep(roots, Flatten(roots), MeantAll(alt.anchor), search), "descendant", None);
  }

  lemma ScopedSteps(alt: Alternative)
    requires IsScoped(alt)
    ensures StepsOf(alt.path) == [("descendant", None)] && MeantAll(alt.target) != []
  {
  }

  lemma FollowOne(roots: seq<Node>, ps: seq<Place>, axis: string, depth: Option<nat>)
    requires AllPlaces(roots, ps)
    ensures Follow(roots, ps, [(axis, depth)]) == Expand(roots, ps, axis, depth)
  {
  }
}
