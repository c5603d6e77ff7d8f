/** Building a selector, parsing it and evaluating it finds exactly the nodes the
    alternative denotes, in the order of their first routes. */
module Meaning {
  import opened Common
  import opened Text
  import opened Locator
  import opened XPathQuery
  import opened XPathRoundTrip
  import UiSelector
  import opened Selector
  import opened Screen
  import opened Denotation
  import opened Axes
  import opened Routes

  // ---------- conditions ----------

  lemma InfixMeans(s: string, v: string)
    ensures HasInfix(s, v) <==> exists a, b :: s == a + v + b
  {
    if i :| 0 <= i <= |s| - |v| && At(s, v, i) {
      assert s == s[..i] + v + s[i + |v|..];
    }
    if a, b :| s == a + v + b {
      assert At(s, v, |a|);
    }
  }

  lemma PrefixMeans(s: string, v: string)
    ensures v <= s <==> exists b :: s == v + b
  {
    if v <= s {
      assert s == v + s[|v|..];
    }
  }

  lemma SuffixMeans(s: string, v: string)
    ensures HasSuffix(s, v) <==> exists a :: s == a + v
  {
    if HasSuffix(s, v) {
      assert s == s[..|s| - |v|] + v;
    }
  }

  lemma LowerAt(s: string, i: nat)
    requires i < |s|
    ensures |UiSelector.Lower(s)| == |s|
    ensures UiSelector.Lower(s)[i] == if 'A' <= s[i] <= 'Z' then s[i] - 'A' + 'a' else s[i]
  {
    if i > 0 {
      LowerAt(s[1..], i - 1);
    }
  }

  lemma LowerMeans(s: string)
    ensures UiSelector.Lower(s) == "true" <==> SpellsTrue(s)
  {
    var low := UiSelector.Lower(s);
    if |s| == 4 {
      LowerAt(s, 0);
      LowerAt(s, 1);
      LowerAt(s, 2);
      LowerAt(s, 3);
      assert low == "true" <==> low[0] == 't' && low[1] == 'r' && low[2] == 'u' && low[3] == 'e';
    }
  }

  lemma TrueMeans(n: Node, key: string)
    requires IsBoolKey(key)
    ensures UiSelector.Lower(NodeValue(n, key)) == "true" <==> CountsAsTrue(n, key)
  {
    LowerMeans(NodeValue(n, key));
  }

  lemma TextMeans(n: Node, key: string, op: Operator, v: string, search: Search)
    requires !IsBoolKey(key) && key != CLASS_OR_NODE
    ensures Matches(n, Query(key, op, Str(v)), search) <==> TextMeets(Shown(n, key), op, v, search)
  {
    assert NodeValue(n, key) == Shown(n, key);
    InfixMeans(Shown(n, key), v);
    PrefixMeans(Shown(n, key), v);
    SuffixMeans(Shown(n, key), v);
  }

  /** The evaluator's reading of a node is what the condition means. */
  lemma MatchesMeant(n: Node, c: Condition, search: Search)
    requires Typed(c)
    ensures Matches(n, Meant(c), search) <==> Satisfies(n, c, search, true)
    ensures Matches(n, UiSelector.MeantUi(c), search) <==> Satisfies(n, c, search, false)
  {
    NamesAgree(c.attribute);
    NotClassOrNode(c.attribute);
    if IsBool(c.attribute) {
      TrueMeans(n, NodeKey(c.attribute));
    } else {
      TextMeans(n, NodeKey(c.attribute), c.operator, c.value.text, search);
    }
  }

  lemma NotClassOrNode(a: Attribute)
    ensures NodeKey(a) != CLASS_OR_NODE
  {
  }

  lemma {:induction false} MatchesMeantAll(n: Node, cs: seq<Condition>, search: Search)
    requires AllTyped(cs)
    ensures MatchesAll(n, MeantAll(cs), search) <==> SatisfiesAll(n, cs, search, true)
    ensures MatchesAll(n, UiSelector.MeantUiAll(cs), search) <==> SatisfiesAll(n, cs, search, false)
  {
    if cs != [] {
      MatchesMeant(n, cs[0], search);
      MatchesMeantAll(n, cs[1..], search);
      SatisfiesCons(n, cs, search, true);
      SatisfiesCons(n, cs, search, false);
    }
  }

  lemma SatisfiesCons(n: Node, cs: seq<Condition>, search: Search, xpath: bool)
    requires cs != [] && AllTyped(cs)
    ensures SatisfiesAll(n, cs, search, xpath)
       <==> Satisfies(n, cs[0], search, xpath) && SatisfiesAll(n, cs[1..], search, xpath)
  {
  }

  // ---------- steps, filters and duplicates ----------

  lemma {:induction false} DedupeExact<T>(ps: seq<T>, seen: set<T>)
    ensures NoDuplicates(Dedupe(ps, seen))
    ensures forall t :: t in Dedupe(ps, seen) <==> t in ps && t !in seen
  {
    if ps != [] {
      DedupeExact(ps[1..], seen);
      DedupeExact(ps[1..], seen + {ps[0]});
    }
  }

  // ---------- the selector finds what the alternative denotes ----------

  lemma StartExact(roots: seq<Node>, cs: seq<Condition>, search: Search)
    requires AllTyped(cs)
    ensures AllPlaces(roots, Flatten(roots))
    ensures forall a :: a in Keep(roots, Flatten(roots), MeantAll(cs), search)
                   <==> Valid(roots, a) && SatisfiesAll(NodeAt(roots, a), cs, search, true)
    ensures forall a :: a in Keep(roots, Flatten(roots), UiSelector.MeantUiAll(cs), search)
                   <==> Valid(roots, a) && SatisfiesAll(NodeAt(roots, a), cs, search, false)
  {
    WalkValid(roots, [], 0);
    forall a: Place
      ensures a in Keep(roots, Flatten(roots), MeantAll(cs), search)
         <==> Valid(roots, a) && SatisfiesAll(NodeAt(roots, a), cs, search, true)
      ensures a in Keep(roots, Flatten(roots), UiSelector.MeantUiAll(cs), search)
         <==> Valid(roots, a) && SatisfiesAll(NodeAt(roots, a), cs, search, false)
    {
      KeepExact(roots, Flatten(roots), MeantAll(cs), search, a);
      KeepExact(roots, Flatten(roots), UiSelector.MeantUiAll(cs), search, a);
      WalkExact(roots, [], 0, a);
      if Valid(roots, a) {
        MatchesMeantAll(NodeAt(roots, a), cs, search);
      }
    }
  }

  lemma {:induction false} DedupeDistinct<T>(ps: seq<T>, seen: set<T>)
    requires NoDuplicates(ps) && forall p <- ps :: p !in seen
    ensures Dedupe(ps, seen) == ps
  {
    if ps != [] {
      forall p | p in ps[1..]
        ensures p !in seen + {ps[0]}
      {
        var i :| 0 <= i < |ps[1..]| && ps[1..][i] == p;
        assert ps[i + 1] == p;
      }
      DedupeDistinct(ps[1..], seen + {ps[0]});
      assert [ps[0]] + ps[1..] == ps;
    }
  }

  /** Without a path the matches come in document order. */
  lemma EvalOrdered(roots: seq<Node>, x: XPath, search: Search)
    requires x.steps == []
    ensures Ordered(EvalXPath(roots, x, search))
    ensures x.target == [] ==> AllPlaces(roots, Flatten(roots)) && EvalXPath(roots, x, search) == Keep(roots, Flatten(roots), x.root, search)
  {
    WalkValid(roots, [], 0);
    WalkOrdered(roots, [], 0);
    var start := Keep(roots, Flatten(roots), x.root, search);
    KeepOrdered(roots, Flatten(roots), x.root, search);
    KeepOrdered(roots, start, x.target, search);
    var found := if x.target == [] then start else Keep(roots, start, x.target, search);
    OrderedNoDuplicates(found);
    DedupeDistinct(found, {});
  }

  /** The routes that are kept, in the order of the evaluation. */
  function KeptTrails(roots: seq<Node>, alt: Alternative, search: Search): (r: seq<Route>)
    requires AllTyped(alt.anchor) && AllTyped(alt.target) && ValidPath(alt.path) && SiblingFree(alt.path)
    ensures NonEmptyRoutes(r)
  {
    WalkValid(roots, [], 0);
    var start := Keep(roots, Flatten(roots), MeantAll(alt.anchor), search);
    EndsFollow(roots, start, alt.path);
    KeepTrailsEnds(roots, Trails(roots, start, alt.path), MeantAll(alt.target), search);
    KeepTrails(roots, Trails(roots, start, alt.path), MeantAll(alt.target), search)
  }

  lemma KeptAreRoutes(roots: seq<Node>, alt: Alternative, search: Search, route: Route)
    requires AllTyped(alt.anchor) && AllTyped(alt.target) && ValidPath(alt.path) && SiblingFree(alt.path)
    ensures route in KeptTrails(roots, alt, search) <==> IsRoute(roots, alt, route, search, true)
  {
    WalkValid(roots, [], 0);
    var start := Keep(roots, Flatten(roots), MeantAll(alt.anchor), search);
    var trails := Trails(roots, start, alt.path);
    EndsFollow(roots, start, alt.path);
    KeepTrailsExact(roots, trails, MeantAll(alt.target), search, route);
    TrailsExact(roots, start, alt.path, route);
    StartExact(roots, alt.anchor, search);
    if route != [] && Leads(roots, alt.path, route) {
      EndValid(roots, alt.path, route);
      MatchesMeantAll(NodeAt(roots, End(route)), alt.target, search);
    }
  }

  lemma KeptInOrder(roots: seq<Node>, alt: Alternative, search: Search)
    requires AllTyped(alt.anchor) && AllTyped(alt.target) && ValidPath(alt.path) && SiblingFree(alt.path) && alt.target != []
    ensures InOrder(KeptTrails(roots, alt, search))
    ensures EvalXPath(roots, MeantXPath(alt), search) == Dedupe(Ends(KeptTrails(roots, alt, search)), {})
  {
    WalkValid(roots, [], 0);
    WalkOrdered(roots, [], 0);
    var start := Keep(roots, Flatten(roots), MeantAll(alt.anchor), search);
    KeepOrdered(roots, Flatten(roots), MeantAll(alt.anchor), search);
    TrailsInOrder(roots, start, alt.path);
    EndsFollow(roots, start, alt.path);
    KeepTrailsInOrder(roots, Trails(roots, start, alt.path), MeantAll(alt.target), search);
    KeepTrailsEnds(roots, Trails(roots, start, alt.path), MeantAll(alt.target), search);
  }

  /** The evaluation finds exactly the ends of routes. */
  lemma EvalExact(roots: seq<Node>, alt: Alternative, search: Search, t: Place)
    requires AllTyped(alt.anchor) && AllTyped(alt.target) && ValidPath(alt.path) && SiblingFree(alt.path) && alt.target != []
    ensures t in EvalXPath(roots, MeantXPath(alt), search) <==> Denotes(roots, alt, t, search, true)
  {
    var kept := KeptTrails(roots, alt, search);
    var ends := Ends(kept);
    KeptInOrder(roots, alt, search);
    DedupeExact(ends, {});
    if t in ends {
      var i :| 0 <= i < |ends| && ends[i] == t;
      KeptAreRoutes(roots, alt, search, kept[i]);
    }
    if route :| IsRoute(roots, alt, route, search, true) && End(route) == t {
      KeptAreRoutes(roots, alt, search, route);
      var i :| 0 <= i < |kept| && kept[i] == route;
      assert ends[i] == t;
    }
  }

  /** The evaluation lists nodes in the order of their first routes. */
  lemma EvalInRouteOrder(roots: seq<Node>, alt: Alternative, search: Search)
    requires AllTyped(alt.anchor) && AllTyped(alt.target) && ValidPath(alt.path) && SiblingFree(alt.path) && alt.target != []
    ensures InRouteOrder(roots, alt, EvalXPath(roots, MeantXPath(alt), search), search, true)
  {
    var kept, ts := KeptTrails(roots, alt, search), EvalXPath(roots, MeantXPath(alt), search);
    KeptInOrder(roots, alt, search);
    forall i, j | 0 <= i < j < |ts|
      ensures FoundBefore(roots, alt, ts[i], ts[j], search, true)
    {
      DedupeInOrder(Ends(kept), {}, i, j);
      EarlierIsFoundBefore(roots, alt, search, kept, ts[i], ts[j]);
    }
  }

  lemma EarlierIsFoundBefore(roots: seq<Node>, alt: Alternative, search: Search, kept: seq<Route>, t: Place, u: Place)
    requires AllTyped(alt.anchor) && AllTyped(alt.target) && ValidPath(alt.path) && SiblingFree(alt.path)
    requires kept == KeptTrails(roots, alt, search) && InOrder(kept) && Earlier(Ends(kept), t, u)
    ensures FoundBefore(roots, alt, t, u, search, true)
  {
    var ends := Ends(kept);
    var p :| 0 <= p < |ends| && ends[p] == t && forall q :: 0 <= q < |ends| && ends[q] == u ==> p < q;
    var a := kept[p];
    KeptAreRoutes(roots, alt, search, a);
    forall b | IsRoute(roots, alt, b, search, true) && End(b) == u
      ensures RouteBefore(a, b)
    {
      KeptAreRoutes(roots, alt, search, b);
      var q :| 0 <= q < |kept| && kept[q] == b;
      assert ends[q] == u;
    }
    assert FirstOf(roots, alt, a, u, search, true);
  }

  /** Without anchor and path a route is a single node. */
  lemma PlainInRouteOrder(roots: seq<Node>, alt: Alternative, ts: seq<Place>, search: Search, xpath: bool)
    requires AllTyped(alt.anchor) && AllTyped(alt.target) && alt.anchor == [] && alt.path == [] && Ordered(ts)
    requires forall i :: 0 <= i < |ts| ==> Valid(roots, ts[i]) && SatisfiesAll(NodeAt(roots, ts[i]), alt.target, search, xpath)
    ensures InRouteOrder(roots, alt, ts, search, xpath)
  {
    forall i, j | 0 <= i < j < |ts|
      ensures FoundBefore(roots, alt, ts[i], ts[j], search, xpath)
    {
      var a := [ts[i]];
      assert IsRoute(roots, alt, a, search, xpath) && End(a) == ts[i];
      forall b | IsRoute(roots, alt, b, search, xpath) && End(b) == ts[j]
        ensures RouteBefore(a, b)
      {
        assert b[0] == ts[j];
      }
      assert FirstOf(roots, alt, a, ts[j], search, xpath);
    }
  }

  /** The result is a list without repetitions of exactly the places denoted, in the
      order of their first routes. */
  ghost predicate Finds(r: Option<seq<Place>>, roots: seq<Node>, alt: Alternative, search: Search)
    requires AllTyped(alt.anchor) && AllTyped(alt.target) && ValidPath(alt.path)
  {
    && r.Some? && NoDuplicates(r.value)
    && (forall t :: t in r.value <==> Denotes(roots, alt, t, search, UsesXPath(alt)))
    && InRouteOrder(roots, alt, r.value, search, UsesXPath(alt))
    && (alt.path == [] ==> Ordered(r.value))
  }

  lemma RelativeMeaning(roots: seq<Node>, alt: Alternative, compiles: string -> bool, search: Search)
    requires ValidAlternative(alt, compiles) && SiblingFree(alt.path) && alt.anchor != []
    requires AllTyped(alt.anchor) && AllTyped(alt.target) && DelimiterFree(alt)
    ensures BuildSelector(alt).Some?
    ensures Finds(FindElements(roots, BuildSelector(alt).value, search), roots, alt, search)
    ensures FindElements(roots, BuildSelector(alt).value, search) == Some(EvalXPath(roots, MeantXPath(alt), search))
  {
    RelativeIsPrintable(alt, compiles);
    RelativeRoundTrip(alt);
    var r := EvalXPath(roots, MeantXPath(alt), search);
    forall t: Place
      ensures t in r <==> Denotes(roots, alt, t, search, true)
    {
      EvalExact(roots, alt, search, t);
    }
    assert r != [] ==> r[0] in r;
    EvalNoDuplicates(roots, MeantXPath(alt), search);
    EvalInRouteOrder(roots, alt, search);
    if alt.path == [] {
      EvalOrdered(roots, MeantXPath(alt), search);
    }
  }

  lemma EvalNoDuplicates(roots: seq<Node>, x: XPath, search: Search)
    ensures NoDuplicates(EvalXPath(roots, x, search))
  {
    WalkValid(roots, [], 0);
    var reached := Follow(roots, Keep(roots, Flatten(roots), x.root, search), x.steps);
    DedupeExact(if x.target == [] then reached else Keep(roots, reached, x.target, search), {});
  }

  lemma PlainDenotes(roots: seq<Node>, alt: Alternative, t: Place, search: Search, xpath: bool)
    requires AllTyped(alt.target) && alt.anchor == [] && alt.path == []
    ensures Denotes(roots, alt, t, search, xpath) <==> Valid(roots, t) && SatisfiesAll(NodeAt(roots, t), alt.target, search, xpath)
  {
    if route :| IsRoute(roots, alt, route, search, xpath) && End(route) == t {
      assert Leads(roots, [], route) && route == [t];
    }
    if Valid(roots, t) && SatisfiesAll(NodeAt(roots, t), alt.target, search, xpath) {
      assert IsRoute(roots, alt, [t], search, xpath) && End([t]) == t;
    }
  }

  lemma PlainMeaning(roots: seq<Node>, alt: Alternative, compiles: string -> bool, search: Search)
    requires ValidAlternative(alt, compiles) && alt.anchor == []
    requires AllTyped(alt.anchor) && AllTyped(alt.target) && DelimiterFree(alt)
    ensures BuildSelector(alt).Some?
    ensures Finds(FindElements(roots, BuildSelector(alt).value, search), roots, alt, search)
  {
    var cs := alt.target;
    BuildSelectorTotal(alt, compiles);
    StartExact(roots, cs, search);
    var qs := if UsesXPath(alt) then MeantAll(cs) else UiSelector.MeantUiAll(cs);
    var r := Keep(roots, Flatten(roots), qs, search);
    PlainFound(roots, alt, search);
    WalkOrdered(roots, [], 0);
    KeepOrdered(roots, Flatten(roots), qs, search);
    OrderedNoDuplicates(r);
    forall t: Place
      ensures t in r <==> Denotes(roots, alt, t, search, UsesXPath(alt))
    {
      PlainDenotes(roots, alt, t, search, UsesXPath(alt));
    }
    assert forall i :: 0 <= i < |r| ==> r[i] in r;
    PlainInRouteOrder(roots, alt, r, search, UsesXPath(alt));
  }

  lemma PlainFound(roots: seq<Node>, alt: Alternative, search: Search)
    requires alt.anchor == [] && alt.path == [] && AllTyped(alt.target) && BuildSelector(alt).Some? && DelimiterFree(alt)
    requires AllPlaces(roots, Flatten(roots))
    ensures FindElements(roots, BuildSelector(alt).value, search)
         == Some(Keep(roots, Flatten(roots), if UsesXPath(alt) then MeantAll(alt.target) else UiSelector.MeantUiAll(alt.target), search))
  {
    if UsesXPath(alt) {
      NoRegexPrintable(alt.target);
      XPathRoundTrip.XPathRoundTrip(alt.target);
      EvalOrdered(roots, XPath(MeantAll(alt.target), [], []), search);
    } else {
      UiSelector.UiRoundTrip(alt.target);
    }
  }

  /** For every validated alternative without sibling axes and without the two
      delimiters in its values, the selector that is built, parsed and evaluated
      finds exactly the nodes the alternative denotes, each once: in document order
      when there is no path, and otherwise in the order of the first route, from the
      anchor along the path, that leads to each. */
  lemma SelectorMeaning(roots: seq<Node>, alt: Alternative, compiles: string -> bool, search: Search)
    requires ValidAlternative(alt, compiles) && SiblingFree(alt.path)
    requires AllTyped(alt.anchor) && AllTyped(alt.target) && DelimiterFree(alt)
    ensures BuildSelector(alt).Some?
    ensures Finds(FindElements(roots, BuildSelector(alt).value, search), roots, alt, search)
  {
    if alt.anchor != [] {
      RelativeMeaning(roots, alt, compiles, search);
    } else {
      PlainMeaning(roots, alt, compiles, search);
    }
  }
}
