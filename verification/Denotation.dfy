/** What an alternative denotes on a screen, stated on the structured locator and the
    tree alone: which nodes, and in which order they are found. */
module Denotation {
  import opened Text
  import opened Locator
  import opened XPathRoundTrip
  import opened Selector
  import opened Screen

  // ---------- what a condition means on a node ----------

  /** The text spells `true`, in capitals or not. */
  predicate SpellsTrue(s: string) {
    && |s| == 4 && (s[0] == 't' || s[0] == 'T') && (s[1] == 'r' || s[1] == 'R')
    && (s[2] == 'u' || s[2] == 'U') && (s[3] == 'e' || s[3] == 'E')
  }

  /** A boolean property counts as true; a missing one does not. */
  predicate CountsAsTrue(n: Node, key: string) {
    key in n.properties &&
    match n.properties[key]
    case PText(s) => SpellsTrue(s)
    case PFlag(b) => b
    case POther(_, truthy) => truthy
  }

  /** The text a property of another kind is compared as; a missing one is Python's False. */
  function Shown(n: Node, key: string): string {
    if key !in n.properties then "False"
    else
      match n.properties[key]
      case PText(s) => s
      case PFlag(true) => "True"
      case PFlag(false) => "False"
      case POther(shown, _) => shown
  }

  ghost predicate TextMeets(s: string, op: Operator, v: string, search: Search) {
    match op
    case Equals => s == v
    case Contains => exists a, b :: s == a + v + b
    case StartsWith => exists b :: s == v + b
    case EndsWith => exists a :: s == a + v
    case Regex => search(v, s)
  }

  /** The condition holds of the node's own property. */
  ghost predicate Holds(n: Node, c: Condition, search: Search)
    requires Typed(c)
  {
    if IsBool(c.attribute) then CountsAsTrue(n, NodeKey(c.attribute)) <==> c.value.on
    else TextMeets(Shown(n, NodeKey(c.attribute)), c.operator, c.value.text, search)
  }

  /** The class is the value, taking a missing class as empty. */
  predicate ClassIs(n: Node, value: string) {
    if "class_name" in n.properties then n.properties["class_name"] == PText(value) else value == ""
  }

  /** Under XPath a class may also be met by the node name. */
  ghost predicate Satisfies(n: Node, c: Condition, search: Search, xpath: bool)
    requires Typed(c)
  {
    if xpath && c.attribute.ClassName? && c.operator.Equals? then n.nodeName == c.value.text || ClassIs(n, c.value.text)
    else Holds(n, c, search)
  }

  ghost predicate SatisfiesAll(n: Node, cs: seq<Condition>, search: Search, xpath: bool)
    requires AllTyped(cs)
  {
    forall i :: 0 <= i < |cs| ==> Satisfies(n, cs[i], search, xpath)
  }

  predicate Extends(a: Place, t: Place) {
    |a| < |t| && a == t[..|a|]
  }

  predicate SameParent(a: Place, t: Place) {
    |a| == |t| > 1 && a[..|a| - 1] == t[..|t| - 1]
  }

  /** How a segment relates two places. */
  predicate Related(seg: Segment, a: Place, t: Place)
    requires ValidSegment(seg)
  {
    match seg.axis
    case Ancestor => |a| > seg.depth.value && t == a[..|a| - seg.depth.value]
    case Parent => |a| > seg.depth.value && t == a[..|a| - seg.depth.value]
    case Child => Extends(a, t) && |t| == |a| + 1
    case Descendant => Extends(a, t)
    case FollowingSibling => SameParent(a, t) && a[|a| - 1] < t[|t| - 1]
    case PrecedingSibling => SameParent(a, t) && t[|t| - 1] < a[|a| - 1]
  }

  predicate SiblingFree(path: seq<Segment>) {
    forall i :: 0 <= i < |path| ==> !path[i].axis.FollowingSibling? && !path[i].axis.PrecedingSibling?
  }

  /** The places passed on the way from an anchor to a target. */
  type Route = seq<Place>

  /** The route follows the path through places of the screen. */
  predicate Leads(roots: seq<Node>, path: seq<Segment>, route: Route)
    requires ValidPath(path)
  {
    && route != [] && Valid(roots, route[0])
    && if path == [] then |route| == 1
       else |route| > 1 && Related(path[0], route[0], route[1]) && Leads(roots, path[1..], route[1..])
  }

  function End(route: Route): Place
    requires route != []
  {
    route[|route| - 1]
  }

  lemma {:induction false} EndValid(roots: seq<Node>, path: seq<Segment>, route: Route)
    requires ValidPath(path) && Leads(roots, path, route)
    ensures Valid(roots, End(route))
  {
    if path != [] {
      EndValid(roots, path[1..], route[1..]);
    }
  }

  /** A route of the alternative: from a node meeting the anchor conditions, along
      the path, to a node meeting the target conditions. */
  ghost predicate IsRoute(roots: seq<Node>, alt: Alternative, route: Route, search: Search, xpath: bool)
    requires AllTyped(alt.anchor) && AllTyped(alt.target) && ValidPath(alt.path)
  {
    && Leads(roots, alt.path, route) && SatisfiesAll(NodeAt(roots, route[0]), alt.anchor, search, xpath)
    && (EndValid(roots, alt.path, route); SatisfiesAll(NodeAt(roots, End(route)), alt.target, search, xpath))
  }

  /** The node is the end of a route. */
  ghost predicate Denotes(roots: seq<Node>, alt: Alternative, t: Place, search: Search, xpath: bool)
    requires AllTyped(alt.anchor) && AllTyped(alt.target) && ValidPath(alt.path)
  {
    exists route :: IsRoute(roots, alt, route, search, xpath) && End(route) == t
  }

  // ---------- the order in which nodes are found ----------

  /** Document order: an ancestor comes before its descendants, and of two places
      that part, the one with the smaller position at the parting. */
  predicate Before(p: Place, q: Place) {
    Extends(p, q) || exists n :: 0 <= n < |p| && n < |q| && p[..n] == q[..n] && p[n] < q[n]
  }

  predicate Ordered(ps: seq<Place>) {
    forall i, j :: 0 <= i < j < |ps| ==> Before(ps[i], ps[j])
  }

  /** Routes are compared place by place, in document order. */
  predicate RouteBefore(a: Route, b: Route) {
    a != [] && b != [] && (Before(a[0], b[0]) || (a[0] == b[0] && RouteBefore(a[1..], b[1..])))
  }

  /** Some route to `t` comes before every route to `u`. */
  ghost predicate FoundBefore(roots: seq<Node>, alt: Alternative, t: Place, u: Place, search: Search, xpath: bool)
    requires AllTyped(alt.anchor) && AllTyped(alt.target) && ValidPath(alt.path)
  {
    exists a :: IsRoute(roots, alt, a, search, xpath) && End(a) == t && FirstOf(roots, alt, a, u, search, xpath)
  }

  ghost predicate FirstOf(roots: seq<Node>, alt: Alternative, a: Route, u: Place, search: Search, xpath: bool)
    requires AllTyped(alt.anchor) && AllTyped(alt.target) && ValidPath(alt.path)
  {
    forall b :: IsRoute(roots, alt, b, search, xpath) && End(b) == u ==> RouteBefore(a, b)
  }

  /** A list of nodes in the order of their first routes. */
  ghost predicate InRouteOrder(roots: seq<Node>, alt: Alternative, ts: seq<Place>, search: Search, xpath: bool)
    requires AllTyped(alt.anchor) && AllTyped(alt.target) && ValidPath(alt.path)
  {
    forall i, j :: 0 <= i < j < |ts| ==> FoundBefore(roots, alt, ts[i], ts[j], search, xpath)
  }

  // ---------- which language is used ----------

  /** The selector is an XPath. */
  predicate UsesXPath(alt: Alternative) {
    alt.anchor != [] || alt.path != [] || (!HasRegex(alt.target) && NeedsXPath(alt.target))
  }

  /** No condition that is printed as XPath holds the delimiter its pattern searches for. */
  ghost predicate DelimiterFree(alt: Alternative)
    requires AllTyped(alt.anchor) && AllTyped(alt.target)
  {
    UsesXPath(alt) ==> AllRecoverable(alt.anchor) && AllRecoverable(alt.target)
  }
}
